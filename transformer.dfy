/**
 The inference branch of `Transformer.forward`: a batch of encoded examples
 is decoded greedily when the beam width is 1 and by beam search, one
 example at a time, otherwise.
 */
module Transformer {
  import opened Decoder
  import opened Greedy
  import opened Beam

  /** f raises on example i with err, and on no example before it. */
  predicate FailsFirstAt<M, K, Y>(f: (M, K) -> Result<Y>, mem: seq<M>, memMask: seq<K>, i: int, err: SearchError)
    requires |mem| == |memMask|
  {
    && 0 <= i < |mem|
    && f(mem[i], memMask[i]) == Err(err)
    && forall j :: 0 <= j < i ==> f(mem[j], memMask[j]).Ok?
  }

  /**
   `[f(mem[i:i + 1], mem_mask[i:i + 1]) for i in range(len(mem))]` for an f
   that may raise: the results in batch order, or the error of the first
   example that raises.
   */
  function Batch<M, K, Y>(f: (M, K) -> Result<Y>, mem: seq<M>, memMask: seq<K>): (r: Result<seq<Y>>)
    requires |mem| == |memMask|
    ensures r.Ok? <==> forall i :: 0 <= i < |mem| ==> f(mem[i], memMask[i]).Ok?
    ensures r.Ok? ==> |r.value| == |mem|
    ensures r.Ok? ==> forall i :: 0 <= i < |mem| ==> r.value[i] == f(mem[i], memMask[i]).value
    ensures r.Err? ==> exists i :: FailsFirstAt(f, mem, memMask, i, r.error)
    decreases |mem|
  {
    if |mem| == 0 then Ok([])
    else
      var n := |mem| - 1;
      var prefix := Batch(f, mem[..n], memMask[..n]);
      if prefix.Err? then
        var i :| FailsFirstAt(f, mem[..n], memMask[..n], i, prefix.error);
        assert FailsFirstAt(f, mem, memMask, i, prefix.error);
        Err(prefix.error)
      else
        match f(mem[n], memMask[n])
        case Err(err) =>
          assert FailsFirstAt(f, mem, memMask, n, err);
          Err(err)
        case Ok(h) => Ok(prefix.value + [h])
  }

  /** The first error of a prefix is the error of the whole batch. */
  lemma {:induction false} BatchFirstError<M, K, Y>(f: (M, K) -> Result<Y>, mem: seq<M>, memMask: seq<K>, i: nat,
                                                    err: SearchError)
    requires |mem| == |memMask|
    requires FailsFirstAt(f, mem, memMask, i, err)
    ensures Batch(f, mem, memMask) == Err(err)
    decreases |mem|
  {
    var n := |mem| - 1;
    if i < n {
      assert FailsFirstAt(f, mem[..n], memMask[..n], i, err);
      BatchFirstError(f, mem[..n], memMask[..n], i, err);
    } else {
      assert Batch(f, mem[..n], memMask[..n]).Ok?;
    }
  }

  /** One more example at the end of the batch. */
  lemma BatchSnoc<M, K, Y>(f: (M, K) -> Result<Y>, mem: seq<M>, memMask: seq<K>, i: nat, hs: seq<Y>, h: Y)
    requires |mem| == |memMask| && i < |mem|
    requires Batch(f, mem[..i], memMask[..i]) == Ok(hs) && f(mem[i], memMask[i]) == Ok(h)
    ensures Batch(f, mem[..i + 1], memMask[..i + 1]) == Ok(hs + [h])
  {
    assert mem[..i + 1][..i] == mem[..i] && memMask[..i + 1][..i] == memMask[..i];
  }

  /** `beam_search_inference(mem, mem_mask, max_len, beam_width)`. */
  function BeamSearchInference<M, K>(model: Model<M, K>, mem: seq<M>, memMask: seq<K>, maxLen: int,
                                     beamWidth: int): (r: Result<seq<seq<Token>>>)
    requires |mem| == |memMask|
  {
    Batch((m: M, k: K) => BeamSearch(model, m, k, maxLen, beamWidth), mem, memMask)
  }

  /**
   A batch raises exactly when it is not empty and beam_width is below 1,
   or the loop runs and beam_width exceeds the vocabulary size; an empty
   batch gives an empty list whatever the arguments.
   */
  lemma BeamSearchInferenceOutcome<M, K>(model: Model<M, K>, mem: seq<M>, memMask: seq<K>, maxLen: int,
                                         beamWidth: int)
    requires |mem| == |memMask|
    ensures var r := BeamSearchInference(model, mem, memMask, maxLen, beamWidth);
      && (r.Err? <==> 0 < |mem| && (beamWidth < 1 || (1 < maxLen && model.vocabSize < beamWidth)))
      && (r.Err? ==> r.error == if beamWidth < 1 then InvalidBeamWidth else TopKOutOfRange)
      && (|mem| == 0 ==> r == Ok([]))
  {
    var r := BeamSearchInference(model, mem, memMask, maxLen, beamWidth);
    if 0 < |mem| {
      BeamSearchOutcome(model, mem[0], memMask[0], maxLen, beamWidth);
    }
    if r.Err? {
      var i :| 0 <= i < |mem| && BeamSearch(model, mem[i], memMask[i], maxLen, beamWidth) == Err(r.error);
      BeamSearchOutcome(model, mem[i], memMask[i], maxLen, beamWidth);
    }
  }

  /** At beam width 1 the batch beam search gives every example its greedy decoding. */
  lemma WidthOneBatchIsGreedy<M, K>(model: Model<M, K>, mem: seq<M>, memMask: seq<K>, maxLen: int,
                                    hyps: seq<seq<Token>>)
    requires model.vocabSize > 0 && |mem| == |memMask|
    requires |hyps| == |mem|
    requires forall i :: 0 <= i < |mem| ==> hyps[i] == GreedyDecode(model, mem[i], memMask[i], maxLen)
    ensures BeamSearchInference(model, mem, memMask, maxLen, 1) == Ok(hyps)
  {
    forall i | 0 <= i < |mem|
      ensures BeamSearch(model, mem[i], memMask[i], maxLen, 1) == Ok(hyps[i])
    {
      BeamWidthOneIsGreedy(model, mem[i], memMask[i], maxLen);
    }
    var r := BeamSearchInference(model, mem, memMask, maxLen, 1);
    assert r.value == hyps;
  }

  /** The comprehension of `beam_search_inference`, calling the search once per example. */
  method BeamSearchBatch<M, K>(model: Model<M, K>, mem: seq<M>, memMask: seq<K>, maxLen: int, beamWidth: int)
    returns (r: Result<seq<seq<Token>>>)
    requires |mem| == |memMask|
    ensures r == BeamSearchInference(model, mem, memMask, maxLen, beamWidth)
  {
    ghost var f := (m: M, k: K) => BeamSearch(model, m, k, maxLen, beamWidth);
    var hyps: seq<seq<Token>> := [];
    var i := 0;
    while i < |mem|
      invariant 0 <= i <= |mem|
      invariant Batch(f, mem[..i], memMask[..i]) == Ok(hyps)
    {
      var h := BeamSearchHelper(model, mem[i], memMask[i], maxLen, beamWidth);
      assert f(mem[i], memMask[i]) == h;
      if h.Err? {
        assert forall j :: 0 <= j < i ==> mem[..i][j] == mem[j] && memMask[..i][j] == memMask[j];
        assert FailsFirstAt(f, mem, memMask, i, h.error);
        BatchFirstError(f, mem, memMask, i, h.error);
        return Err(h.error);
      }
      BatchSnoc(f, mem, memMask, i, hyps, h.value);
      hyps := hyps + [h.value];
      i := i + 1;
    }
    assert mem[..i] == mem && memMask[..i] == memMask;
    r := Ok(hyps);
  }

  /**
   The inference branch of `forward(src, tgt, max_len, beam_width)`:
   greedy decoding at beam width 1, beam search otherwise.  At width 1 the
   two decoders agree, so the outcome is the batch beam search with the
   given width either way.
   */
  method Forward<M, K>(model: Model<M, K>, mem: seq<M>, memMask: seq<K>, maxLen: int, beamWidth: int)
    returns (r: Result<seq<seq<Token>>>)
    requires model.vocabSize > 0 && |mem| == |memMask|
    ensures r == BeamSearchInference(model, mem, memMask, maxLen, beamWidth)
    ensures beamWidth == 1 ==> r.Ok? && forall i :: 0 <= i < |mem| ==>
              r.value[i] == GreedyDecode(model, mem[i], memMask[i], maxLen)
  {
    if beamWidth == 1 {
      var hyps := GreedyInference(model, mem, memMask, maxLen);
      WidthOneBatchIsGreedy(model, mem, memMask, maxLen, hyps);
      r := Ok(hyps);
    } else {
      r := BeamSearchBatch(model, mem, memMask, maxLen, beamWidth);
    }
  }
}
