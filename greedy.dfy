/**
 Greedy decoding (`Transformer.greedy_inference`): every example of the batch
 grows its sequence by the arg-max token until it emits `</s>` or the length
 bound is reached; finished examples leave the batch, and the outputs are put
 back in batch order at the end.
 */
module Greedy {
  import opened Decoder
  import opened Compaction

  /** Number of loop steps left at step l of `for l in range(1, max_len)`. */
  function Steps(maxLen: int, l: int): (r: nat)
  {
    if maxLen > l then maxLen - l else 0
  }

  /** What greedy decoding makes of one example's prefix with the given number of steps left. */
  function Extend<M, K>(model: Model<M, K>, mem: M, mask: K, prefix: seq<Token>, steps: nat): (r: seq<Token>)
    requires model.vocabSize > 0
    decreases steps
  {
    if steps == 0 then prefix
    else
      var t := ArgMax(model, mem, mask, prefix);
      if t == model.eos then prefix + [t]
      else Extend(model, mem, mask, prefix + [t], steps - 1)
  }

  /** A step that does not emit `</s>` leaves the rest to the grown prefix. */
  lemma ExtendStep<M, K>(model: Model<M, K>, mem: M, mask: K, prefix: seq<Token>, steps: nat)
    requires model.vocabSize > 0 && 0 < steps && ArgMax(model, mem, mask, prefix) != model.eos
    ensures Extend(model, mem, mask, prefix, steps)
            == Extend(model, mem, mask, prefix + [ArgMax(model, mem, mask, prefix)], steps - 1)
  {
  }

  /** The same counted in loop iterations: iteration l hands the grown prefix to iteration l + 1. */
  lemma ExtendNextIteration<M, K>(model: Model<M, K>, mem: M, mask: K, prefix: seq<Token>, maxLen: int, l: int)
    requires model.vocabSize > 0 && l < maxLen && ArgMax(model, mem, mask, prefix) != model.eos
    ensures Extend(model, mem, mask, prefix, Steps(maxLen, l))
            == Extend(model, mem, mask, prefix + [ArgMax(model, mem, mask, prefix)], Steps(maxLen, l + 1))
  {
    ExtendStep(model, mem, mask, prefix, Steps(maxLen, l));
    assert Steps(maxLen, l) == Steps(maxLen, l + 1) + 1;
  }

  /** The output of greedy decoding for one example. */
  function GreedyDecode<M, K>(model: Model<M, K>, mem: M, mask: K, maxLen: int): (r: seq<Token>)
    requires model.vocabSize > 0
  {
    Extend(model, mem, mask, [model.bos], Steps(maxLen, 1))
  }

  /**
   Extending keeps the prefix and adds at most `steps` tokens, at least one
   when a step is left; fewer than `steps` only when the last one is `</s>`.
   */
  lemma {:induction false} ExtendLength<M, K>(model: Model<M, K>, mem: M, mask: K, prefix: seq<Token>, steps: nat)
    requires model.vocabSize > 0
    ensures var r := Extend(model, mem, mask, prefix, steps);
      && |prefix| <= |r| <= |prefix| + steps
      && r[..|prefix|] == prefix
      && (steps > 0 ==> |r| > |prefix|)
      && (|r| < |prefix| + steps ==> r[|r| - 1] == model.eos)
    decreases steps
  {
    if steps > 0 {
      var t := ArgMax(model, mem, mask, prefix);
      var p := prefix + [t];
      assert p[..|prefix|] == prefix;
      if t != model.eos {
        ExtendLength(model, mem, mask, p, steps - 1);
        var r := Extend(model, mem, mask, p, steps - 1);
        assert r[..|prefix|] == r[..|p|][..|prefix|];
      }
    }
  }

  /** Every added token is the arg-max after what precedes it, and only the last can be `</s>`. */
  lemma {:induction false} ExtendTokens<M, K>(model: Model<M, K>, mem: M, mask: K, prefix: seq<Token>, steps: nat)
    requires model.vocabSize > 0
    ensures var r := Extend(model, mem, mask, prefix, steps);
      && |prefix| <= |r|
      && (forall j :: |prefix| <= j < |r| ==> r[j] == ArgMax(model, mem, mask, r[..j]))
      && (forall j :: |prefix| <= j < |r| - 1 ==> r[j] != model.eos)
    decreases steps, 1
  {
    if steps > 0 {
      var t := ArgMax(model, mem, mask, prefix);
      if t != model.eos {
        ExtendTokensOn(model, mem, mask, prefix, steps);
      } else {
        var p := prefix + [t];
        assert p[..|prefix|] == prefix;
      }
    }
  }

  /** The same after a first token other than `</s>`: it is the arg-max after the prefix. */
  lemma {:induction false} ExtendTokensOn<M, K>(model: Model<M, K>, mem: M, mask: K, prefix: seq<Token>, steps: nat)
    requires model.vocabSize > 0 && steps > 0 && ArgMax(model, mem, mask, prefix) != model.eos
    ensures var r := Extend(model, mem, mask, prefix, steps);
      && |prefix| <= |r|
      && (forall j :: |prefix| <= j < |r| ==> r[j] == ArgMax(model, mem, mask, r[..j]))
      && (forall j :: |prefix| <= j < |r| - 1 ==> r[j] != model.eos)
    decreases steps, 0
  {
    var p := prefix + [ArgMax(model, mem, mask, prefix)];
    ExtendTokens(model, mem, mask, p, steps - 1);
    ExtendLength(model, mem, mask, p, steps - 1);
    ExtendStep(model, mem, mask, prefix, steps);
    PrependToken(model, mem, mask, prefix, Extend(model, mem, mask, p, steps - 1));
  }

  /** Greedy tokens after prefix + [t], with t the arg-max after prefix, are greedy tokens after prefix. */
  lemma PrependToken<M, K>(model: Model<M, K>, mem: M, mask: K, prefix: seq<Token>, r: seq<Token>)
    requires model.vocabSize > 0 && |prefix| < |r|
    requires r[..|prefix| + 1] == prefix + [ArgMax(model, mem, mask, prefix)]
    requires ArgMax(model, mem, mask, prefix) != model.eos
    requires forall j :: |prefix| + 1 <= j < |r| ==> r[j] == ArgMax(model, mem, mask, r[..j])
    requires forall j :: |prefix| + 1 <= j < |r| - 1 ==> r[j] != model.eos
    ensures forall j :: |prefix| <= j < |r| ==> r[j] == ArgMax(model, mem, mask, r[..j])
    ensures forall j :: |prefix| <= j < |r| - 1 ==> r[j] != model.eos
  {
    var n := |prefix|;
    assert r[n] == r[..n + 1][n];
    assert r[..n] == r[..n + 1][..n];
  }

  /**
   Extending keeps the prefix, adds at most `steps` tokens, each the arg-max
   after what precedes it; only the last added token can be `</s>`, and it is
   whenever fewer than `steps` tokens were added.
   */
  lemma ExtendShape<M, K>(model: Model<M, K>, mem: M, mask: K, prefix: seq<Token>, steps: nat)
    requires model.vocabSize > 0
    ensures var r := Extend(model, mem, mask, prefix, steps);
      && |prefix| <= |r| <= |prefix| + steps
      && r[..|prefix|] == prefix
      && (steps > 0 ==> |r| > |prefix|)
      && (forall j :: |prefix| <= j < |r| ==> r[j] == ArgMax(model, mem, mask, r[..j]))
      && (forall j :: |prefix| <= j < |r| - 1 ==> r[j] != model.eos)
      && (|r| < |prefix| + steps ==> r[|r| - 1] == model.eos)
  {
    ExtendLength(model, mem, mask, prefix, steps);
    ExtendTokens(model, mem, mask, prefix, steps);
  }

  /**
   Every greedy output starts with `<s>` and has length at most max(max_len, 1),
   so `max_len <= 1` gives `[<s>]`; an output shorter than max_len ends in
   `</s>`, and no earlier token after `<s>` is `</s>`.
   */
  lemma GreedyDecodeShape<M, K>(model: Model<M, K>, mem: M, mask: K, maxLen: int)
    requires model.vocabSize > 0
    ensures var r := GreedyDecode(model, mem, mask, maxLen);
      && 1 <= |r| && r[0] == model.bos
      && |r| <= (if maxLen > 1 then maxLen else 1)
      && (maxLen <= 1 ==> r == [model.bos])
      && (1 < |r| < maxLen ==> r[|r| - 1] == model.eos)
      && (forall j :: 1 <= j < |r| - 1 ==> r[j] != model.eos)
      && (forall j :: 1 <= j < |r| ==> r[j] == ArgMax(model, mem, mask, r[..j]))
  {
    ExtendShape(model, mem, mask, [model.bos], Steps(maxLen, 1));
  }

  /**
   The four parallel arrays agree: rows of `running`, `mem` and `mem_mask`
   belong to example batch_idx[i], and batch_idx increases, so the surviving
   rows keep their relative order.
   */
  ghost predicate Lockstep<M, K>(mem: seq<M>, memMask: seq<K>, batchIdx: seq<nat>,
                                 running: seq<seq<Token>>, rowsMem: seq<M>, rowsMask: seq<K>)
  {
    && |mem| == |memMask|
    && |running| == |batchIdx| == |rowsMem| == |rowsMask|
    && Increasing(batchIdx)
    && forall i :: 0 <= i < |batchIdx| ==>
         batchIdx[i] < |mem| && rowsMem[i] == mem[batchIdx[i]] && rowsMask[i] == memMask[batchIdx[i]]
  }

  /**
   Every running row has length l, starts with `<s>`, has not emitted `</s>`,
   and greedy decoding of its remaining steps is its example's output.
   */
  ghost predicate RunningRows<M, K>(model: Model<M, K>, rowsMem: seq<M>, rowsMask: seq<K>,
                                    running: seq<seq<Token>>, l: int, maxLen: int)
    requires model.vocabSize > 0
  {
    && 1 <= l
    && |running| == |rowsMem| == |rowsMask|
    && forall i :: 0 <= i < |running| ==>
         && |running[i]| == l && running[i][0] == model.bos && model.eos !in running[i][1..]
         && Extend(model, rowsMem[i], rowsMask[i], running[i], Steps(maxLen, l))
            == GreedyDecode(model, rowsMem[i], rowsMask[i], maxLen)
  }

  /** Every pair holds the greedy output of the example its key names. */
  ghost predicate PairsCorrect<M, K>(model: Model<M, K>, mem: seq<M>, memMask: seq<K>, maxLen: int,
                                     ps: seq<(nat, seq<Token>)>)
    requires model.vocabSize > 0
    requires |mem| == |memMask|
  {
    forall a :: 0 <= a < |ps| ==>
      ps[a].0 < |mem| && ps[a].1 == GreedyDecode(model, mem[ps[a].0], memMask[ps[a].0], maxLen)
  }

  lemma PairsAppend<M, K>(model: Model<M, K>, mem: seq<M>, memMask: seq<K>, maxLen: int,
                          ps: seq<(nat, seq<Token>)>, qs: seq<(nat, seq<Token>)>)
    requires model.vocabSize > 0
    requires |mem| == |memMask|
    requires PairsCorrect(model, mem, memMask, maxLen, ps) && PairsCorrect(model, mem, memMask, maxLen, qs)
    ensures PairsCorrect(model, mem, memMask, maxLen, ps + qs)
  {
    forall a | 0 <= a < |ps + qs|
      ensures (ps + qs)[a] == if a < |ps| then ps[a] else qs[a - |ps|]
    {
    }
  }

  /**
   Every finished pair holds its example's greedy output; no example is both
   finished and running, nor finished twice.
   */
  ghost predicate FinishedPairs<M, K>(model: Model<M, K>, mem: seq<M>, memMask: seq<K>, maxLen: int,
                                      finished: seq<(nat, seq<Token>)>, batchIdx: seq<nat>)
    requires model.vocabSize > 0
    requires |mem| == |memMask|
  {
    && PairsCorrect(model, mem, memMask, maxLen, finished)
    && DistinctKeys(finished)
    && (forall a, i :: 0 <= a < |finished| && 0 <= i < |batchIdx| ==> finished[a].0 != batchIdx[i])
  }

  /** The greedy tokens of one step, one per running row. */
  ghost predicate StepOutputs<M, K>(model: Model<M, K>, rowsMem: seq<M>, rowsMask: seq<K>,
                                    running: seq<seq<Token>>, outputs: seq<Token>, grown: seq<seq<Token>>)
    requires model.vocabSize > 0
    requires |running| == |rowsMem| == |rowsMask|
  {
    && |outputs| == |grown| == |running|
    && forall i :: 0 <= i < |running| ==>
         outputs[i] == ArgMax(model, rowsMem[i], rowsMask[i], running[i])
         && grown[i] == running[i] + [outputs[i]]
  }

  /** A row that does not emit `</s>` stays consistent one step further on. */
  lemma RunningRow<M, K>(model: Model<M, K>, maxLen: int, l: int,
                         running: seq<seq<Token>>, rowsMem: seq<M>, rowsMask: seq<K>,
                         outputs: seq<Token>, grown: seq<seq<Token>>, j: nat)
    requires model.vocabSize > 0 && l < maxLen
    requires RunningRows(model, rowsMem, rowsMask, running, l, maxLen)
    requires StepOutputs(model, rowsMem, rowsMask, running, outputs, grown)
    requires j < |running| && outputs[j] != model.eos
    ensures |grown[j]| == l + 1 && grown[j][0] == model.bos && model.eos !in grown[j][1..]
    ensures Extend(model, rowsMem[j], rowsMask[j], grown[j], Steps(maxLen, l + 1))
            == GreedyDecode(model, rowsMem[j], rowsMask[j], maxLen)
  {
    assert grown[j][1..] == running[j][1..] + [outputs[j]];
  }

  /** Compacting to the rows that did not emit `</s>` keeps the running rows consistent. */
  lemma RunningStep<M, K>(model: Model<M, K>, mem: seq<M>, memMask: seq<K>, maxLen: int, l: int,
                          batchIdx: seq<nat>, running: seq<seq<Token>>, rowsMem: seq<M>, rowsMask: seq<K>,
                          outputs: seq<Token>, grown: seq<seq<Token>>)
    requires model.vocabSize > 0 && l < maxLen
    requires Lockstep(mem, memMask, batchIdx, running, rowsMem, rowsMask)
    requires RunningRows(model, rowsMem, rowsMask, running, l, maxLen)
    requires StepOutputs(model, rowsMem, rowsMask, running, outputs, grown)
    ensures var keep := Where(outputs, model.eos, false);
      && Lockstep(mem, memMask, Gather(batchIdx, keep), Gather(grown, keep), Gather(rowsMem, keep), Gather(rowsMask, keep))
      && RunningRows(model, Gather(rowsMem, keep), Gather(rowsMask, keep), Gather(grown, keep), l + 1, maxLen)
  {
    var keep := Where(outputs, model.eos, false);
    GatherIncreasing(batchIdx, keep);
    var rs, ms, ks := Gather(grown, keep), Gather(rowsMem, keep), Gather(rowsMask, keep);
    forall c | 0 <= c < |keep|
      ensures |rs[c]| == l + 1 && rs[c][0] == model.bos && model.eos !in rs[c][1..]
      ensures Extend(model, ms[c], ks[c], rs[c], Steps(maxLen, l + 1)) == GreedyDecode(model, ms[c], ks[c], maxLen)
    {
      assert keep[c] in keep;
      RunningRow(model, maxLen, l, running, rowsMem, rowsMask, outputs, grown, keep[c]);
    }
  }

  /** A row that emits `</s>` is complete: its example's greedy output. */
  lemma FinishedRow<M, K>(model: Model<M, K>, mem: seq<M>, memMask: seq<K>, maxLen: int, l: int,
                          batchIdx: seq<nat>, running: seq<seq<Token>>, rowsMem: seq<M>, rowsMask: seq<K>,
                          outputs: seq<Token>, grown: seq<seq<Token>>, j: nat)
    requires model.vocabSize > 0 && l < maxLen
    requires Lockstep(mem, memMask, batchIdx, running, rowsMem, rowsMask)
    requires RunningRows(model, rowsMem, rowsMask, running, l, maxLen)
    requires StepOutputs(model, rowsMem, rowsMask, running, outputs, grown)
    requires j < |running| && outputs[j] == model.eos
    ensures batchIdx[j] < |mem|
    ensures |grown[j]| == l + 1 && grown[j][l] == model.eos
    ensures grown[j] == GreedyDecode(model, mem[batchIdx[j]], memMask[batchIdx[j]], maxLen)
  {
  }

  /** The rows that emitted `</s>` move to finished with their example's output. */
  lemma FinishedStep<M, K>(model: Model<M, K>, mem: seq<M>, memMask: seq<K>, maxLen: int, l: int,
                           finished: seq<(nat, seq<Token>)>,
                           batchIdx: seq<nat>, running: seq<seq<Token>>, rowsMem: seq<M>, rowsMask: seq<K>,
                           outputs: seq<Token>, grown: seq<seq<Token>>, keep: seq<nat>, done: seq<nat>)
    requires model.vocabSize > 0 && l < maxLen
    requires Lockstep(mem, memMask, batchIdx, running, rowsMem, rowsMask)
    requires RunningRows(model, rowsMem, rowsMask, running, l, maxLen)
    requires FinishedPairs(model, mem, memMask, maxLen, finished, batchIdx)
    requires StepOutputs(model, rowsMem, rowsMask, running, outputs, grown)
    requires keep == Where(outputs, model.eos, false) && done == Where(outputs, model.eos, true)
    ensures FinishedPairs(model, mem, memMask, maxLen,
                          finished + Zip(Gather(batchIdx, done), Gather(grown, done)), Gather(batchIdx, keep))
  {
    var added := Zip(Gather(batchIdx, done), Gather(grown, done));
    AddedValues(model, mem, memMask, maxLen, l, batchIdx, running, rowsMem, rowsMask, outputs, grown, done);
    PairsAppend(model, mem, memMask, maxLen, finished, added);
    AddedKeys(mem, memMask, finished, batchIdx, running, rowsMem, rowsMask, Gather(grown, done), outputs, model.eos, keep, done);
  }

  /** One iteration of the loop keeps all four invariants. */
  lemma GreedyStep<M, K>(model: Model<M, K>, mem: seq<M>, memMask: seq<K>, maxLen: int, l: int,
                         finished: seq<(nat, seq<Token>)>,
                         batchIdx: seq<nat>, running: seq<seq<Token>>, rowsMem: seq<M>, rowsMask: seq<K>,
                         outputs: seq<Token>, grown: seq<seq<Token>>, keep: seq<nat>, done: seq<nat>)
    requires model.vocabSize > 0 && l < maxLen
    requires Lockstep(mem, memMask, batchIdx, running, rowsMem, rowsMask)
    requires RunningRows(model, rowsMem, rowsMask, running, l, maxLen)
    requires FinishedPairs(model, mem, memMask, maxLen, finished, batchIdx)
    requires |finished| + |batchIdx| == |mem|
    requires StepOutputs(model, rowsMem, rowsMask, running, outputs, grown)
    requires keep == Where(outputs, model.eos, false) && done == Where(outputs, model.eos, true)
    ensures var finished' := finished + Zip(Gather(batchIdx, done), Gather(grown, done));
      && Lockstep(mem, memMask, Gather(batchIdx, keep), Gather(grown, keep), Gather(rowsMem, keep),
                  Gather(rowsMask, keep))
      && RunningRows(model, Gather(rowsMem, keep), Gather(rowsMask, keep), Gather(grown, keep), l + 1, maxLen)
      && FinishedPairs(model, mem, memMask, maxLen, finished', Gather(batchIdx, keep))
      && |finished'| + |keep| == |mem|
  {
    WhereSplits(outputs, model.eos);
    RunningStep(model, mem, memMask, maxLen, l, batchIdx, running, rowsMem, rowsMask, outputs, grown);
    FinishedStep(model, mem, memMask, maxLen, l, finished, batchIdx, running, rowsMem, rowsMask, outputs, grown,
                 keep, done);
  }

  /** Each pair moved to finished holds its example's greedy output. */
  lemma AddedValues<M, K>(model: Model<M, K>, mem: seq<M>, memMask: seq<K>, maxLen: int, l: int,
                          batchIdx: seq<nat>, running: seq<seq<Token>>, rowsMem: seq<M>, rowsMask: seq<K>,
                          outputs: seq<Token>, grown: seq<seq<Token>>, done: seq<nat>)
    requires model.vocabSize > 0 && l < maxLen
    requires Lockstep(mem, memMask, batchIdx, running, rowsMem, rowsMask)
    requires RunningRows(model, rowsMem, rowsMask, running, l, maxLen)
    requires StepOutputs(model, rowsMem, rowsMask, running, outputs, grown)
    requires done == Where(outputs, model.eos, true)
    ensures PairsCorrect(model, mem, memMask, maxLen, Zip(Gather(batchIdx, done), Gather(grown, done)))
  {
    forall c | 0 <= c < |done|
      ensures batchIdx[done[c]] < |mem|
      ensures grown[done[c]] == GreedyDecode(model, mem[batchIdx[done[c]]], memMask[batchIdx[done[c]]], maxLen)
    {
      assert done[c] in done;
      FinishedRow(model, mem, memMask, maxLen, l, batchIdx, running, rowsMem, rowsMask, outputs, grown, done[c]);
    }
  }

  /**
   The keys moved to finished are fresh and distinct, and none of them stays
   in batch_idx: an example leaves the batch exactly once.
   */
  lemma AddedKeys<M, K, V>(mem: seq<M>, memMask: seq<K>, finished: seq<(nat, V)>,
                           batchIdx: seq<nat>, running: seq<seq<Token>>, rowsMem: seq<M>, rowsMask: seq<K>,
                           vals: seq<V>, outputs: seq<Token>, eos: Token, keep: seq<nat>, done: seq<nat>)
    requires Lockstep(mem, memMask, batchIdx, running, rowsMem, rowsMask)
    requires |outputs| == |batchIdx| && |vals| == |done|
    requires DistinctKeys(finished)
    requires forall a, i :: 0 <= a < |finished| && 0 <= i < |batchIdx| ==> finished[a].0 != batchIdx[i]
    requires keep == Where(outputs, eos, false) && done == Where(outputs, eos, true)
    ensures var all := finished + Zip(Gather(batchIdx, done), vals);
      && DistinctKeys(all)
      && forall a, i :: 0 <= a < |all| && 0 <= i < |keep| ==> all[a].0 != Gather(batchIdx, keep)[i]
  {
    var all := finished + Zip(Gather(batchIdx, done), vals);
    forall a, b | 0 <= a < b < |all|
      ensures all[a].0 != all[b].0
    {
      if b >= |finished| {
        var cb := b - |finished|;
        assert all[b].0 == batchIdx[done[cb]];
        if a >= |finished| {
          var ca := a - |finished|;
          assert all[a].0 == batchIdx[done[ca]];
          assert done[ca] < done[cb];
        }
      }
    }
    forall a, i | 0 <= a < |all| && 0 <= i < |keep|
      ensures all[a].0 != batchIdx[keep[i]]
    {
      if a >= |finished| {
        var c := a - |finished|;
        assert all[a].0 == batchIdx[done[c]];
        assert done[c] in done && keep[i] in keep;
        assert done[c] != keep[i];
      }
    }
  }

  /**
   `greedy_inference(mem, mem_mask, max_len)`: one output per example, in
   batch order, each the example's own greedy decoding.  The loop keeps the
   four parallel arrays `running`, `batch_idx`, `mem`, `mem_mask` in
   lockstep (Lockstep), the running rows consistent (RunningRows) and the
   finished pairs correct (FinishedPairs).
   */
  method GreedyInference<M, K>(model: Model<M, K>, mem: seq<M>, memMask: seq<K>, maxLen: int)
    returns (hyps: seq<seq<Token>>)
    requires model.vocabSize > 0
    requires |mem| == |memMask|
    ensures |hyps| == |mem|
    ensures forall i :: 0 <= i < |mem| ==> hyps[i] == GreedyDecode(model, mem[i], memMask[i], maxLen)
  {
    var n := |mem|;
    var batchIdx: seq<nat> := seq(n, i => i);
    var running: seq<seq<Token>> := seq(n, i => [model.bos]);
    var rowsMem := mem;
    var rowsMask := memMask;
    var finished: seq<(nat, seq<Token>)> := [];
    var l := 1;
    InitialState(model, mem, memMask, maxLen);
    while l < maxLen
      invariant 1 <= l
      invariant Lockstep(mem, memMask, batchIdx, running, rowsMem, rowsMask)
      invariant RunningRows(model, rowsMem, rowsMask, running, l, maxLen)
      invariant FinishedPairs(model, mem, memMask, maxLen, finished, batchIdx)
      invariant |finished| + |batchIdx| == n
      decreases maxLen - l
    {
      var outputs: seq<Token> := seq(|running|, i requires 0 <= i < |running| =>
                           ArgMax(model, rowsMem[i], rowsMask[i], running[i]));
      var grown: seq<seq<Token>> := seq(|running|, i requires 0 <= i < |running| => running[i] + [outputs[i]]);
      var runningIdx := Where(outputs, model.eos, false);
      var finishedIdx := Where(outputs, model.eos, true);
      GreedyStep(model, mem, memMask, maxLen, l, finished, batchIdx, running, rowsMem, rowsMask, outputs, grown,
                 runningIdx, finishedIdx);

      finished := finished + Zip(Gather(batchIdx, finishedIdx), Gather(grown, finishedIdx));
      running := Gather(grown, runningIdx);
      batchIdx := Gather(batchIdx, runningIdx);
      rowsMem := Gather(rowsMem, runningIdx);
      rowsMask := Gather(rowsMask, runningIdx);

      if |running| == 0 {
        break;
      }
      l := l + 1;
    }
    Conclude(model, mem, memMask, maxLen, l, finished, batchIdx, running, rowsMem, rowsMask);
    finished := finished + Zip(batchIdx, running);
    var sorted := SortByKey(finished);
    hyps := seq(|sorted|, i requires 0 <= i < |sorted| => sorted[i].1);
  }

  /**
   After the loop, adding the rows still running and sorting by batch index
   gives every example's greedy output at its own position.
   */
  lemma Conclude<M, K>(model: Model<M, K>, mem: seq<M>, memMask: seq<K>, maxLen: int, l: int,
                       finished: seq<(nat, seq<Token>)>,
                       batchIdx: seq<nat>, running: seq<seq<Token>>, rowsMem: seq<M>, rowsMask: seq<K>)
    requires model.vocabSize > 0
    requires maxLen <= l || |running| == 0
    requires Lockstep(mem, memMask, batchIdx, running, rowsMem, rowsMask)
    requires RunningRows(model, rowsMem, rowsMask, running, l, maxLen)
    requires FinishedPairs(model, mem, memMask, maxLen, finished, batchIdx)
    requires |finished| + |batchIdx| == |mem|
    ensures var sorted := SortByKey(finished + Zip(batchIdx, running));
      && |sorted| == |mem|
      && forall i :: 0 <= i < |mem| ==> sorted[i].1 == GreedyDecode(model, mem[i], memMask[i], maxLen)
  {
    AllFinished(model, mem, memMask, maxLen, l, finished, batchIdx, running, rowsMem, rowsMask);
    RestoreOrder(model, mem, memMask, maxLen, finished + Zip(batchIdx, running));
  }

  /**
   Sorting the n finished pairs by batch index puts example i's output at
   position i, whichever order the examples finished in.
   */
  lemma RestoreOrder<M, K>(model: Model<M, K>, mem: seq<M>, memMask: seq<K>, maxLen: int,
                           finished: seq<(nat, seq<Token>)>)
    requires model.vocabSize > 0 && |mem| == |memMask|
    requires FinishedPairs(model, mem, memMask, maxLen, finished, [])
    requires |finished| == |mem|
    ensures var sorted := SortByKey(finished);
      forall i :: 0 <= i < |mem| ==> sorted[i].1 == GreedyDecode(model, mem[i], memMask[i], maxLen)
  {
    SortDistinctStrict(finished);
    var sorted := SortByKey(finished);
    forall a | 0 <= a < |sorted|
      ensures sorted[a].0 < |mem|
      ensures sorted[a].1 == GreedyDecode(model, mem[sorted[a].0], memMask[sorted[a].0], maxLen)
    {
      assert sorted[a] in multiset(finished);
    }
    KeysAreIdentity(sorted, |mem|);
  }

  /** Before the first step every example is running with the sequence `[<s>]`. */
  lemma InitialState<M, K>(model: Model<M, K>, mem: seq<M>, memMask: seq<K>, maxLen: int)
    requires model.vocabSize > 0 && |mem| == |memMask|
    ensures var n := |mem|;
      && Lockstep(mem, memMask, seq(n, i => i), seq(n, i => [model.bos]), mem, memMask)
      && RunningRows(model, mem, memMask, seq(n, i => [model.bos]), 1, maxLen)
      && FinishedPairs(model, mem, memMask, maxLen, [], seq(n, i => i))
  {
    var running: seq<seq<Token>> := seq(|mem|, i => [model.bos]);
    forall i | 0 <= i < |mem|
      ensures running[i][1..] == []
    {
    }
  }

  /** After the loop, the rows still running are added unchanged: they are complete outputs. */
  lemma AllFinished<M, K>(model: Model<M, K>, mem: seq<M>, memMask: seq<K>, maxLen: int, l: int,
                          finished: seq<(nat, seq<Token>)>,
                          batchIdx: seq<nat>, running: seq<seq<Token>>, rowsMem: seq<M>, rowsMask: seq<K>)
    requires model.vocabSize > 0
    requires maxLen <= l || |running| == 0
    requires Lockstep(mem, memMask, batchIdx, running, rowsMem, rowsMask)
    requires RunningRows(model, rowsMem, rowsMask, running, l, maxLen)
    requires FinishedPairs(model, mem, memMask, maxLen, finished, batchIdx)
    ensures FinishedPairs(model, mem, memMask, maxLen, finished + Zip(batchIdx, running), [])
  {
  }
}
