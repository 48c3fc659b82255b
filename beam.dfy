/**
 Beam search for a single example (`Transformer.beam_search_helper`): k
 hypotheses are extended in lockstep; each step keeps the k best one-token
 extensions of the whole beam, moves those that end in `</s>` to a finished
 list, and the search shrinks to the rest.  The answer is the best-scoring
 hypothesis among the finished ones and those still active at the end.
 */
module Beam {
  import opened Scores
  import opened Selection
  import opened Decoder
  import opened Compaction
  import opened Greedy

  /** A hypothesis with its cumulative log-probability. */
  datatype Hyp = Hyp(score: Score, tokens: seq<Token>)

  /**
   The search state between steps: the active beam (`logps` and `hyps`,
   row by row) and the `finished` list.
   */
  datatype Beam = Beam(logps: seq<Score>, hyps: seq<seq<Token>>, finished: seq<Hyp>)

  /** The ways the search raises instead of returning. */
  datatype SearchError =
    | InvalidBeamWidth  // beam_width < 1: `logps[0] = 0` on an empty tensor, or a negative size
    | TopKOutOfRange    // `torch.topk(outputs, k)` with k above the vocabulary size

  datatype Result<T> = Ok(value: T) | Err(error: SearchError)

  function Max(a: int, b: int): (r: int)
  {
    if a < b then b else a
  }

  /** beam_width copies of [<s>]; the first scores 0 and the others -inf. */
  function InitialBeam(bos: Token, beamWidth: nat): (b: Beam)
    ensures |b.logps| == |b.hyps| == beamWidth && b.finished == []
    ensures forall i :: 0 <= i < beamWidth ==>
              b.hyps[i] == [bos] && b.logps[i] == if i == 0 then Fin(0) else NegInf
  {
    Beam(seq(beamWidth, (i: nat) => if i == 0 then Fin(0) else NegInf),
         seq(beamWidth, _ => [bos]),
         [])
  }

  /** `torch.topk(outputs, k)` for one hypothesis: its k best next tokens, best first. */
  function RowTop<M, K>(model: Model<M, K>, mem: M, mask: K, hyp: seq<Token>, k: nat): (r: seq<Token>)
    requires k <= model.vocabSize
    ensures |r| == k
    ensures forall a :: 0 <= a < k ==> r[a] < model.vocabSize
  {
    TopK(Lift(LogProbs(model, mem, mask, hyp)), k)
  }

  /** A flat index into the k-by-k grid of candidates names its row and its column. */
  lemma DivBound(q: nat, k: nat)
    requires 0 < k && q < k * k
    ensures q / k < k && q % k < k
  {
  }

  lemma SquareAtLeast(k: nat)
    ensures k <= k * k
  {
  }

  lemma FlatIndexBounds(idxs: seq<nat>, k: nat)
    requires 0 < k
    requires forall a :: 0 <= a < |idxs| ==> idxs[a] < k * k
    ensures forall a :: 0 <= a < |idxs| ==> idxs[a] / k < k && idxs[a] % k < k
  {
    forall a | 0 <= a < |idxs|
      ensures idxs[a] / k < k && idxs[a] % k < k
    {
      DivBound(idxs[a], k);
    }
  }

  /** `q // k`: the row of one flat index. */
  function Row(q: nat, k: nat): (p: nat)
    requires 0 < k && q < k * k
    ensures p == q / k && p < k
  {
    DivBound(q, k);
    q / k
  }

  /** `idxs // k`: the row of each flat index. */
  function Parents(idxs: seq<nat>, k: nat): (r: seq<nat>)
    requires 0 < k
    requires forall a :: 0 <= a < |idxs| ==> idxs[a] < k * k
    ensures |r| == |idxs|
    ensures forall a :: 0 <= a < |idxs| ==> r[a] == idxs[a] / k && r[a] < k
  {
    seq(|idxs|, a requires 0 <= a < |idxs| => Row(idxs[a], k))
  }

  /** Entry q of `tmp_idxs.view(-1)`: the (q % k)-th best token of hypothesis q / k. */
  function FlatWord<M, K>(model: Model<M, K>, mem: M, mask: K, hyps: seq<seq<Token>>, q: nat): (t: Token)
    requires 0 < |hyps| <= model.vocabSize && q < |hyps| * |hyps|
    ensures t < model.vocabSize
  {
    DivBound(q, |hyps|);
    RowTop(model, mem, mask, hyps[q / |hyps|], |hyps|)[q % |hyps|]
  }

  /**
   Entry q of `tmp_logps.view(-1)`: the score of hypothesis q / k plus the
   log-probability of the token in column q % k.
   */
  function FlatScore<M, K>(model: Model<M, K>, mem: M, mask: K, logps: seq<Score>, hyps: seq<seq<Token>>,
                           q: nat): (r: Score)
    requires 0 < |hyps| == |logps| <= model.vocabSize && q < |hyps| * |hyps|
  {
    DivBound(q, |hyps|);
    var p := q / |hyps|;
    Add(logps[p], Fin(LogProbs(model, mem, mask, hyps[p])[FlatWord(model, mem, mask, hyps, q)]))
  }

  function Flat<M, K>(model: Model<M, K>, mem: M, mask: K, logps: seq<Score>, hyps: seq<seq<Token>>)
    : (r: seq<Score>)
    requires 0 < |hyps| == |logps| <= model.vocabSize
    ensures |r| == |hyps| * |hyps|
  {
    seq(|hyps| * |hyps|, q requires 0 <= q < |hyps| * |hyps| => FlatScore(model, mem, mask, logps, hyps, q))
  }

  /** Entries of `tmp_idxs.view(-1)`, one per cell of the k-by-k grid. */
  function FlatWords<M, K>(model: Model<M, K>, mem: M, mask: K, hyps: seq<seq<Token>>): (r: seq<Token>)
    requires 0 < |hyps| <= model.vocabSize
    ensures |r| == |hyps| * |hyps|
    ensures forall q :: 0 <= q < |hyps| * |hyps| ==> r[q] == FlatWord(model, mem, mask, hyps, q)
  {
    var n := |hyps| * |hyps|;
    seq(n, q requires 0 <= q < n => FlatWord(model, mem, mask, hyps, q))
  }

  /** One expansion of the beam: the chosen flat indices, their scores, tokens and parents. */
  datatype Expansion = Expansion(idxs: seq<nat>, logps: seq<Score>, words: seq<Token>, parents: seq<nat>)

  /** The selection on the flattened grid, whatever its entries. */
  function Select(flat: seq<Score>, flatWords: seq<Token>, k: nat): (e: Expansion)
    requires 0 < k && |flat| == |flatWords| == k * k
    ensures |e.idxs| == |e.logps| == |e.words| == |e.parents| == k
    ensures e.idxs == TopK(flat, k)
    ensures forall i :: 0 <= i < k ==>
              && e.idxs[i] < k * k
              && e.logps[i] == flat[e.idxs[i]]
              && e.words[i] == flatWords[e.idxs[i]]
              && e.parents[i] == e.idxs[i] / k
              && e.parents[i] < k
  {
    SquareAtLeast(k);
    var idxs := TopK(flat, k);
    Expansion(idxs,
              seq(k, i requires 0 <= i < k => flat[idxs[i]]),
              seq(k, i requires 0 <= i < k => flatWords[idxs[i]]),
              Parents(idxs, k))
  }

  /**
   `logps, idxs = torch.topk(tmp_logps, k)`, `words = tmp_idxs[idxs]` and
   `hyps_idxs = idxs // k`: every parent index lies in [0, k).
   */
  function Expand<M, K>(model: Model<M, K>, mem: M, mask: K, logps: seq<Score>, hyps: seq<seq<Token>>)
    : (e: Expansion)
    requires 0 < |hyps| == |logps| <= model.vocabSize
    ensures |e.idxs| == |e.logps| == |e.words| == |e.parents| == |hyps|
    ensures forall i :: 0 <= i < |hyps| ==>
              e.idxs[i] < |hyps| * |hyps| && e.parents[i] == e.idxs[i] / |hyps| && e.parents[i] < |hyps|
  {
    Select(Flat(model, mem, mask, logps, hyps), FlatWords(model, mem, mask, hyps), |hyps|)
  }

  /**
   What an expansion keeps: each token is one of its parent's own k best
   tokens, each score is the parent's score plus that token's
   log-probability, the scores come best first, and no candidate of the
   k-by-k grid left out scores above any candidate kept.
   */
  lemma ExpandSound<M, K>(model: Model<M, K>, mem: M, mask: K, logps: seq<Score>, hyps: seq<seq<Token>>)
    requires 0 < |hyps| == |logps| <= model.vocabSize
    ensures var e := Expand(model, mem, mask, logps, hyps);
      && (forall i :: 0 <= i < |hyps| ==>
            && e.words[i] in RowTop(model, mem, mask, hyps[e.parents[i]], |hyps|)
            && e.logps[i] == Add(logps[e.parents[i]],
                                 Fin(LogProbs(model, mem, mask, hyps[e.parents[i]])[e.words[i]])))
      && (forall i, j :: 0 <= i < j < |hyps| ==> Le(e.logps[j], e.logps[i]))
      && (forall q, i :: 0 <= q < |hyps| * |hyps| && q !in e.idxs && 0 <= i < |hyps| ==>
            Le(FlatScore(model, mem, mask, logps, hyps, q), e.logps[i]))
  {
    var k := |hyps|;
    var e := Expand(model, mem, mask, logps, hyps);
    var flat := Flat(model, mem, mask, logps, hyps);
    FlatIndexBounds(e.idxs, k);
    forall q | 0 <= q < k * k
      ensures flat[q] == FlatScore(model, mem, mask, logps, hyps, q)
    {
    }
  }

  /** A hypothesis score never rises when log-probabilities are at most 0. */
  lemma ExpandScoresDecrease<M, K>(model: Model<M, K>, mem: M, mask: K, logps: seq<Score>,
                                   hyps: seq<seq<Token>>)
    requires 0 < |hyps| == |logps| <= model.vocabSize
    requires NonPositiveLogProbs(model)
    ensures var e := Expand(model, mem, mask, logps, hyps);
      forall i :: 0 <= i < |hyps| ==> Le(e.logps[i], logps[e.parents[i]])
  {
    var e := Expand(model, mem, mask, logps, hyps);
    ExpandSound(model, mem, mask, logps, hyps);
    forall i | 0 <= i < |hyps|
      ensures Le(e.logps[i], logps[e.parents[i]])
    {
      LogProbsNonPositive(model, mem, mask, hyps[e.parents[i]]);
    }
  }

  /** `torch.cat([hyps[hyps_idxs], words[:, None]], dim=1)`. */
  function Grow(hyps: seq<seq<Token>>, e: Expansion): (r: seq<seq<Token>>)
    requires |e.words| == |e.parents|
    requires forall i :: 0 <= i < |e.parents| ==> e.parents[i] < |hyps|
    ensures |r| == |e.words|
  {
    seq(|e.words|, i requires 0 <= i < |e.words| => hyps[e.parents[i]] + [e.words[i]])
  }

  /** `list(zip(scores, seqs))`. */
  function Hyps(scores: seq<Score>, seqs: seq<seq<Token>>): (r: seq<Hyp>)
    requires |scores| == |seqs|
    ensures |r| == |scores|
    ensures forall a :: 0 <= a < |scores| ==> r[a] == Hyp(scores[a], seqs[a])
  {
    seq(|scores|, a requires 0 <= a < |scores| => Hyp(scores[a], seqs[a]))
  }

  /**
   The bookkeeping after an expansion: every row grows by its token, the
   rows whose token is `</s>` move to the finished list in beam order and
   the others stay active.  The rows kept plus the rows finished are all
   rows of the expansion, and the finished list only grows at its end.
   */
  function Advance(b: Beam, e: Expansion, eos: Token): (r: Beam)
    requires |e.logps| == |e.words| == |e.parents|
    requires forall i :: 0 <= i < |e.parents| ==> e.parents[i] < |b.hyps|
    ensures |r.logps| == |r.hyps|
    ensures |r.hyps| + |r.finished| == |e.words| + |b.finished|
    ensures b.finished <= r.finished
  {
    var grown := Grow(b.hyps, e);
    var done := Where(e.words, eos, true);
    var keep := Where(e.words, eos, false);
    WhereSplits(e.words, eos);
    Beam(Gather(e.logps, keep), Gather(grown, keep),
         b.finished + Hyps(Gather(e.logps, done), Gather(grown, done)))
  }

  /**
   One iteration of the search loop.  It raises when the beam is wider
   than the vocabulary; otherwise the hypotheses kept active plus those
   newly finished are exactly the k of the old beam.
   */
  function BeamStep<M, K>(model: Model<M, K>, mem: M, mask: K, b: Beam): (r: Result<Beam>)
    requires 0 < |b.hyps| == |b.logps|
    ensures r.Err? <==> |b.hyps| > model.vocabSize
    ensures r.Err? ==> r.error == TopKOutOfRange
    ensures r.Ok? ==> |r.value.logps| == |r.value.hyps|
    ensures r.Ok? ==> |r.value.hyps| + |r.value.finished| == |b.hyps| + |b.finished|
    ensures r.Ok? ==> b.finished <= r.value.finished
  {
    if |b.hyps| > model.vocabSize then Err(TopKOutOfRange)
    else Ok(Advance(b, Expand(model, mem, mask, b.logps, b.hyps), model.eos))
  }

  /**
   The loop `for l in range(l, max_len)`, leaving early once no hypothesis
   is active.  The beam never widens.
   */
  function BeamLoop<M, K>(model: Model<M, K>, mem: M, mask: K, b: Beam, l: int, maxLen: int): (r: Result<Beam>)
    requires 0 < |b.hyps| == |b.logps|
    ensures r.Ok? ==> |r.value.logps| == |r.value.hyps| <= |b.hyps|
    ensures r.Ok? ==> 0 < |r.value.hyps| + |r.value.finished|
    decreases Steps(maxLen, l)
  {
    if maxLen <= l then Ok(b)
    else
      match BeamStep(model, mem, mask, b)
      case Err(err) => Err(err)
      case Ok(next) =>
        if |next.hyps| == 0 then Ok(next) else BeamLoop(model, mem, mask, next, l + 1, maxLen)
  }

  /** `finished + list(zip(logps, hyps))`: every candidate answer. */
  function Final(b: Beam): (r: seq<Hyp>)
    requires |b.logps| == |b.hyps|
    ensures |r| == |b.finished| + |b.hyps|
  {
    b.finished + Hyps(b.logps, b.hyps)
  }

  function ScoresOf(hs: seq<Hyp>): (r: seq<Score>)
    ensures |r| == |hs| && forall a :: 0 <= a < |hs| ==> r[a] == hs[a].score
  {
    seq(|hs|, a requires 0 <= a < |hs| => hs[a].score)
  }

  /**
   `max(finished, key=lambda t: t[0])`: a candidate no other outscores,
   the first such one when several tie.
   */
  function Best(hs: seq<Hyp>): (h: Hyp)
    requires |hs| > 0
    ensures forall j :: 0 <= j < |hs| ==> Le(hs[j].score, h.score)
    ensures exists i :: 0 <= i < |hs| && hs[i] == h && forall j :: 0 <= j < i ==> Lt(hs[j].score, h.score)
  {
    var i := FirstMax(ScoresOf(hs));
    hs[i]
  }

  /** The tokens beam search returns for one example with the given beam width. */
  function BeamSearch<M, K>(model: Model<M, K>, mem: M, mask: K, maxLen: int, beamWidth: int)
    : (r: Result<seq<Token>>)
  {
    if beamWidth < 1 then Err(InvalidBeamWidth)
    else
      match BeamLoop(model, mem, mask, InitialBeam(model.bos, beamWidth), 1, maxLen)
      case Err(err) => Err(err)
      case Ok(b) => Ok(Best(Final(b)).tokens)
  }

  // ---------------------------------------------------------------------
  // The shape of hypotheses

  /** A finished hypothesis of at most n tokens: <s>, tokens other than </s>, then </s>. */
  ghost predicate Ended<M, K>(model: Model<M, K>, t: seq<Token>, n: int)
  {
    2 <= |t| <= n && t[0] == model.bos && t[|t| - 1] == model.eos && model.eos !in t[1..|t| - 1]
  }

  /** An active hypothesis after l - 1 steps: l tokens, <s> first and no </s> after it. */
  ghost predicate Open<M, K>(model: Model<M, K>, t: seq<Token>, l: int)
  {
    1 <= l && |t| == l && t[0] == model.bos && model.eos !in t[1..]
  }

  /** The search state at the top of iteration l. */
  ghost predicate Shaped<M, K>(model: Model<M, K>, b: Beam, l: int)
  {
    && |b.logps| == |b.hyps|
    && (forall i :: 0 <= i < |b.hyps| ==> Open(model, b.hyps[i], l))
    && (forall i :: 0 <= i < |b.finished| ==> Ended(model, b.finished[i].tokens, l))
  }

  /** A loop that succeeds ends in a state of the given iteration's shape. */
  ghost predicate ShapedOutcome<M, K>(model: Model<M, K>, r: Result<Beam>, n: int)
  {
    r.Ok? ==> Shaped(model, r.value, n)
  }

  /**
   A step grows every active hypothesis by one token and splits on `</s>`:
   those it moves to the finished list end in it, those it keeps do not.
   */
  lemma AdvanceShape<M, K>(model: Model<M, K>, b: Beam, e: Expansion, l: int)
    requires Shaped(model, b, l)
    requires |e.logps| == |e.words| == |e.parents|
    requires forall i :: 0 <= i < |e.parents| ==> e.parents[i] < |b.hyps|
    ensures Shaped(model, Advance(b, e, model.eos), l + 1)
  {
    var grown := Grow(b.hyps, e);
    var done := Where(e.words, model.eos, true);
    var keep := Where(e.words, model.eos, false);
    var next := Advance(b, e, model.eos);
    assert next.hyps == Gather(grown, keep);
    var added := Hyps(Gather(e.logps, done), Gather(grown, done));
    assert next.finished == b.finished + added;
    forall c | 0 <= c < |keep|
      ensures Open(model, next.hyps[c], l + 1)
    {
      assert keep[c] in keep;
      var h := b.hyps[e.parents[keep[c]]];
      assert next.hyps[c] == h + [e.words[keep[c]]];
      assert next.hyps[c][1..] == h[1..] + [e.words[keep[c]]];
    }
    forall c | 0 <= c < |done|
      ensures Ended(model, added[c].tokens, l + 1)
    {
      assert done[c] in done;
      var h := b.hyps[e.parents[done[c]]];
      assert added[c].tokens == h + [e.words[done[c]]];
      assert added[c].tokens[1..|added[c].tokens| - 1] == h[1..];
    }
  }

  lemma StepShape<M, K>(model: Model<M, K>, mem: M, mask: K, b: Beam, l: int)
    requires 0 < |b.hyps| <= model.vocabSize && Shaped(model, b, l)
    ensures Shaped(model, BeamStep(model, mem, mask, b).value, l + 1)
  {
    AdvanceShape(model, b, Expand(model, mem, mask, b.logps, b.hyps), l);
  }

  /** With no active hypothesis, a bound on the finished ones holds for every larger bound. */
  lemma ShapedWiden<M, K>(model: Model<M, K>, b: Beam, l: int, n: int)
    requires |b.hyps| == 0 && Shaped(model, b, l) && l <= n
    ensures Shaped(model, b, n)
  {
  }

  /** One unfolding of the loop when a step runs and succeeds. */
  lemma LoopUnfold<M, K>(model: Model<M, K>, mem: M, mask: K, b: Beam, l: int, maxLen: int, next: Beam)
    requires 0 < |b.hyps| == |b.logps| && l < maxLen
    requires BeamStep(model, mem, mask, b) == Ok(next)
    ensures 0 < |next.hyps| ==> |next.hyps| == |next.logps|
    ensures BeamLoop(model, mem, mask, b, l, maxLen)
            == if |next.hyps| == 0 then Ok(next) else BeamLoop(model, mem, mask, next, l + 1, maxLen)
  {
  }

  /**
   Every state the loop reaches has the shape of its iteration; the final
   one, of iteration max_len (or of the first when the loop does not run).
   */
  lemma {:induction false} LoopShape<M, K>(model: Model<M, K>, mem: M, mask: K, b: Beam, l: int, maxLen: int)
    requires 0 < |b.hyps| && Shaped(model, b, l)
    ensures ShapedOutcome(model, BeamLoop(model, mem, mask, b, l, maxLen), Max(l, maxLen))
    decreases Steps(maxLen, l), 3
  {
    if l < maxLen && |b.hyps| <= model.vocabSize {
      StepThenShape(model, mem, mask, b, l, maxLen);
    }
  }

  /** The loop after a step that runs: the step's shape carries on into the rest of the loop. */
  lemma {:induction false} StepThenShape<M, K>(model: Model<M, K>, mem: M, mask: K, b: Beam, l: int, maxLen: int)
    requires 0 < |b.hyps| <= model.vocabSize && Shaped(model, b, l) && l < maxLen
    ensures ShapedOutcome(model, BeamLoop(model, mem, mask, b, l, maxLen), maxLen)
    decreases Steps(maxLen, l), 2
  {
    var next := BeamStep(model, mem, mask, b).value;
    StepShape(model, mem, mask, b, l);
    if |next.hyps| == 0 {
      LastStepShape(model, mem, mask, b, l, maxLen, next);
    } else {
      NextStepShape(model, mem, mask, b, l, maxLen, next);
    }
  }

  /** A step that finishes every hypothesis ends the loop in its own state ... */
  lemma LastStepShape<M, K>(model: Model<M, K>, mem: M, mask: K, b: Beam, l: int, maxLen: int, next: Beam)
    requires 0 < |b.hyps| == |b.logps| && l < maxLen
    requires BeamStep(model, mem, mask, b) == Ok(next) && Shaped(model, next, l + 1) && |next.hyps| == 0
    ensures ShapedOutcome(model, BeamLoop(model, mem, mask, b, l, maxLen), maxLen)
  {
    LoopUnfold(model, mem, mask, b, l, maxLen, next);
    ShapedWiden(model, next, l + 1, maxLen);
    assert ShapedOutcome(model, Ok(next), maxLen);
  }

  /** ... and any other step leaves the rest of the loop to run from its state. */
  lemma {:induction false} NextStepShape<M, K>(model: Model<M, K>, mem: M, mask: K, b: Beam, l: int, maxLen: int,
                                              next: Beam)
    requires 0 < |b.hyps| == |b.logps| && l < maxLen
    requires BeamStep(model, mem, mask, b) == Ok(next) && Shaped(model, next, l + 1) && 0 < |next.hyps|
    ensures ShapedOutcome(model, BeamLoop(model, mem, mask, b, l, maxLen), maxLen)
    decreases Steps(maxLen, l), 1
  {
    LoopUnfold(model, mem, mask, b, l, maxLen, next);
    LoopShape(model, mem, mask, next, l + 1, maxLen);
    assert Max(l + 1, maxLen) == maxLen;
  }

  lemma InitialShaped<M, K>(model: Model<M, K>, beamWidth: nat)
    ensures Shaped(model, InitialBeam(model.bos, beamWidth), 1)
  {
    var b0 := InitialBeam(model.bos, beamWidth);
    forall i | 0 <= i < beamWidth
      ensures Open(model, b0.hyps[i], 1)
    {
      assert b0.hyps[i] == [model.bos];
    }
  }

  /** The chosen candidate is a finished or an active hypothesis of the final state. */
  lemma BestShape<M, K>(model: Model<M, K>, b: Beam, n: int)
    requires Shaped(model, b, n) && 0 < |b.hyps| + |b.finished|
    ensures Ended(model, Best(Final(b)).tokens, n) || Open(model, Best(Final(b)).tokens, n)
  {
    var fs := Final(b);
    var h := Best(fs);
    var i :| 0 <= i < |fs| && fs[i] == h && forall j :: 0 <= j < i ==> Lt(fs[j].score, h.score);
    if i < |b.finished| {
      assert h == b.finished[i];
      assert Ended(model, b.finished[i].tokens, n);
    } else {
      var m := i - |b.finished|;
      assert h == Hyps(b.logps, b.hyps)[m];
      assert Open(model, b.hyps[m], n);
    }
  }

  /**
   The answer starts with <s> and has at most max(max_len, 1) tokens; it
   either ends at its first </s>, or contains no </s> and has the full
   length.  A max_len of at most 1 gives [<s>].
   */
  lemma BeamSearchShape<M, K>(model: Model<M, K>, mem: M, mask: K, maxLen: int, beamWidth: int)
    ensures var r := BeamSearch(model, mem, mask, maxLen, beamWidth);
      r.Ok? ==>
        && 1 <= |r.value| <= Max(maxLen, 1)
        && r.value[0] == model.bos
        && (Ended(model, r.value, Max(maxLen, 1)) || Open(model, r.value, Max(maxLen, 1)))
        && (maxLen <= 1 ==> r.value == [model.bos])
  {
    if beamWidth >= 1 {
      var b0 := InitialBeam(model.bos, beamWidth);
      InitialShaped(model, beamWidth);
      LoopShape(model, mem, mask, b0, 1, maxLen);
      var r := BeamLoop(model, mem, mask, b0, 1, maxLen);
      if r.Ok? {
        BestShape(model, r.value, Max(1, maxLen));
        var t := Best(Final(r.value)).tokens;
        if maxLen <= 1 {
          assert t == [model.bos];
        }
      }
    }
  }

  // ---------------------------------------------------------------------
  // When the search raises

  /** A beam no wider than the vocabulary never makes `torch.topk` raise. */
  lemma {:induction false} LoopSucceeds<M, K>(model: Model<M, K>, mem: M, mask: K, b: Beam, l: int, maxLen: int)
    requires 0 < |b.hyps| == |b.logps| <= model.vocabSize
    ensures BeamLoop(model, mem, mask, b, l, maxLen).Ok?
    decreases Steps(maxLen, l)
  {
    if l < maxLen {
      var next := BeamStep(model, mem, mask, b).value;
      if |next.hyps| > 0 {
        LoopSucceeds(model, mem, mask, next, l + 1, maxLen);
      }
    }
  }

  /**
   The search raises exactly when beam_width is below 1, or when the loop
   runs at least once and beam_width exceeds the vocabulary size (the beam
   only shrinks, so only the first step can raise).
   */
  lemma BeamSearchOutcome<M, K>(model: Model<M, K>, mem: M, mask: K, maxLen: int, beamWidth: int)
    ensures var r := BeamSearch(model, mem, mask, maxLen, beamWidth);
      && (r.Err? <==> beamWidth < 1 || (1 < maxLen && model.vocabSize < beamWidth))
      && (r.Err? ==> r.error == if beamWidth < 1 then InvalidBeamWidth else TopKOutOfRange)
  {
    if 1 <= beamWidth <= model.vocabSize {
      LoopSucceeds(model, mem, mask, InitialBeam(model.bos, beamWidth), 1, maxLen);
    }
  }

  // ---------------------------------------------------------------------
  // Scores

  ghost predicate ScoresNonPositive(b: Beam)
  {
    && (forall i :: 0 <= i < |b.logps| ==> Le(b.logps[i], Fin(0)))
    && (forall i :: 0 <= i < |b.finished| ==> Le(b.finished[i].score, Fin(0)))
  }

  lemma AdvanceScores(b: Beam, e: Expansion, eos: Token)
    requires |b.logps| == |b.hyps| && ScoresNonPositive(b)
    requires |e.logps| == |e.words| == |e.parents|
    requires forall i :: 0 <= i < |e.parents| ==> e.parents[i] < |b.hyps|
    requires forall i :: 0 <= i < |e.parents| ==> Le(e.logps[i], b.logps[e.parents[i]])
    ensures ScoresNonPositive(Advance(b, e, eos))
  {
    var done := Where(e.words, eos, true);
    var keep := Where(e.words, eos, false);
    var next := Advance(b, e, eos);
    assert next.logps == Gather(e.logps, keep);
    assert next.finished == b.finished + Hyps(Gather(e.logps, done), Gather(Grow(b.hyps, e), done));
  }

  lemma StepScores<M, K>(model: Model<M, K>, mem: M, mask: K, b: Beam)
    requires NonPositiveLogProbs(model)
    requires 0 < |b.hyps| == |b.logps| <= model.vocabSize && ScoresNonPositive(b)
    ensures ScoresNonPositive(BeamStep(model, mem, mask, b).value)
  {
    ExpandScoresDecrease(model, mem, mask, b.logps, b.hyps);
    AdvanceScores(b, Expand(model, mem, mask, b.logps, b.hyps), model.eos);
  }

  lemma {:induction false} LoopScores<M, K>(model: Model<M, K>, mem: M, mask: K, b: Beam, l: int, maxLen: int)
    requires NonPositiveLogProbs(model)
    requires 0 < |b.hyps| == |b.logps| && ScoresNonPositive(b)
    ensures var r := BeamLoop(model, mem, mask, b, l, maxLen);
      r.Ok? ==> ScoresNonPositive(r.value)
    decreases Steps(maxLen, l)
  {
    if l < maxLen && |b.hyps| <= model.vocabSize {
      StepScores(model, mem, mask, b);
      var next := BeamStep(model, mem, mask, b).value;
      if |next.hyps| > 0 {
        LoopScores(model, mem, mask, next, l + 1, maxLen);
      }
    }
  }

  /**
   With true log-probabilities (never above 0) every candidate answer,
   the chosen one included, scores at most 0: extending a hypothesis never
   raises its score.
   */
  lemma SearchScoresNonPositive<M, K>(model: Model<M, K>, mem: M, mask: K, maxLen: int, beamWidth: int)
    requires NonPositiveLogProbs(model) && 1 <= beamWidth
    ensures var r := BeamLoop(model, mem, mask, InitialBeam(model.bos, beamWidth), 1, maxLen);
      r.Ok? ==> forall i :: 0 <= i < |Final(r.value)| ==> Le(Final(r.value)[i].score, Fin(0))
  {
    var b0 := InitialBeam(model.bos, beamWidth);
    LoopScores(model, mem, mask, b0, 1, maxLen);
  }

  // ---------------------------------------------------------------------
  // The seeding with one 0 and k - 1 times -inf

  lemma RowOfFlatIndex(q: nat, k: nat)
    requires 0 < k
    ensures q / k == 0 <==> q < k
    ensures q < k ==> q % k == q
  {
  }

  /** A candidate is finite exactly when its parent's score is. */
  lemma FlatScoreFinite<M, K>(model: Model<M, K>, mem: M, mask: K, logps: seq<Score>, hyps: seq<seq<Token>>,
                              q: nat)
    requires 0 < |hyps| == |logps| <= model.vocabSize && q < |hyps| * |hyps|
    ensures q / |hyps| < |hyps|
    ensures FlatScore(model, mem, mask, logps, hyps, q).Fin? <==> logps[q / |hyps|].Fin?
  {
    DivBound(q, |hyps|);
  }

  /**
   When only the first hypothesis has a finite score, every candidate an
   expansion chooses extends that hypothesis and has a finite score.
   */
  lemma ExpandFromSingleFinite<M, K>(model: Model<M, K>, mem: M, mask: K, logps: seq<Score>,
                                     hyps: seq<seq<Token>>)
    requires 0 < |hyps| == |logps| <= model.vocabSize
    requires forall p :: 0 <= p < |logps| ==> (logps[p].Fin? <==> p == 0)
    ensures var e := Expand(model, mem, mask, logps, hyps);
      forall i :: 0 <= i < |hyps| ==> e.parents[i] == 0 && e.logps[i].Fin?
  {
    var k := |hyps|;
    var flat := Flat(model, mem, mask, logps, hyps);
    SquareAtLeast(k);
    forall q | 0 <= q < k * k
      ensures flat[q].Fin? <==> q < k
    {
      FlatScoreFinite(model, mem, mask, logps, hyps, q);
      RowOfFlatIndex(q, k);
    }
    TopKOfFiniteHead(flat, k);
    var e := Select(flat, FlatWords(model, mem, mask, hyps), k);
    forall i | 0 <= i < k
      ensures e.parents[i] == 0 && e.logps[i].Fin?
    {
      RowOfFlatIndex(e.idxs[i], k);
    }
  }

  /**
   Seeding the unused slots with -inf makes the first step extend only the
   first hypothesis: every chosen candidate has parent 0 and a finite score,
   so the k copies of [<s>] never yield the same hypothesis k times.
   */
  lemma FirstStepExtendsFirstSeed<M, K>(model: Model<M, K>, mem: M, mask: K, beamWidth: nat)
    requires 1 <= beamWidth <= model.vocabSize
    ensures var b := InitialBeam(model.bos, beamWidth);
      var e := Expand(model, mem, mask, b.logps, b.hyps);
      && (forall i :: 0 <= i < beamWidth ==> e.parents[i] == 0 && e.logps[i].Fin?)
      && Distinct(e.words)
      && (forall i, j :: 0 <= i < j < beamWidth ==> Grow(b.hyps, e)[i] != Grow(b.hyps, e)[j])
  {
    var k := beamWidth;
    var b := InitialBeam(model.bos, k);
    ExpandFromSingleFinite(model, mem, mask, b.logps, b.hyps);
    var flat, flatWords := Flat(model, mem, mask, b.logps, b.hyps), FlatWords(model, mem, mask, b.hyps);
    var e := Expand(model, mem, mask, b.logps, b.hyps);
    assert e == Select(flat, flatWords, k);
    var row := RowTop(model, mem, mask, b.hyps[0], k);
    RankedDistinct(Lift(LogProbs(model, mem, mask, b.hyps[0])), row);
    FirstRowWords(model, mem, mask, b.hyps);
    SelectFromFirstRow(flat, flatWords, k, row);
    GrowDistinct(b.hyps, e);
  }

  /** The first k cells of the grid hold the first hypothesis's top-k row. */
  lemma FirstRowWords<M, K>(model: Model<M, K>, mem: M, mask: K, hyps: seq<seq<Token>>)
    requires 0 < |hyps| <= model.vocabSize
    ensures forall q :: 0 <= q < |hyps| ==>
              FlatWords(model, mem, mask, hyps)[q] == RowTop(model, mem, mask, hyps[0], |hyps|)[q]
  {
    var k := |hyps|;
    SquareAtLeast(k);
    forall q | 0 <= q < k
      ensures FlatWords(model, mem, mask, hyps)[q] == RowTop(model, mem, mask, hyps[0], k)[q]
    {
      RowOfFlatIndex(q, k);
    }
  }

  /** A selection whose every parent is row 0 picks distinct cells of that row. */
  lemma SelectFromFirstRow(flat: seq<Score>, flatWords: seq<Token>, k: nat, row: seq<Token>)
    requires 0 < k && |flat| == |flatWords| == k * k && |row| == k && Distinct(row)
    requires forall q :: 0 <= q < k ==> flatWords[q] == row[q]
    requires forall i :: 0 <= i < k ==> Select(flat, flatWords, k).parents[i] == 0
    ensures Distinct(Select(flat, flatWords, k).words)
  {
    var e := Select(flat, flatWords, k);
    RankedDistinct(flat, e.idxs);
    forall i | 0 <= i < k
      ensures e.idxs[i] < k && e.words[i] == row[e.idxs[i]]
    {
      RowOfFlatIndex(e.idxs[i], k);
    }
    WordsDistinct(e.idxs, e.words, row, k);
  }

  /** Distinct positions of a row without repetitions pick distinct tokens. */
  lemma WordsDistinct(idxs: seq<nat>, words: seq<Token>, row: seq<Token>, k: nat)
    requires |idxs| == |words| == |row| == k
    requires Distinct(idxs) && Distinct(row)
    requires forall i :: 0 <= i < k ==> idxs[i] < k && words[i] == row[idxs[i]]
    ensures Distinct(words)
  {
  }

  /** Hypotheses grown by distinct tokens are distinct, whatever their parents. */
  lemma GrowDistinct(hyps: seq<seq<Token>>, e: Expansion)
    requires |e.words| == |e.parents| && Distinct(e.words)
    requires forall i :: 0 <= i < |e.parents| ==> e.parents[i] < |hyps|
    ensures forall i, j :: 0 <= i < j < |e.words| ==> Grow(hyps, e)[i] != Grow(hyps, e)[j]
  {
    var grown := Grow(hyps, e);
    forall i, j | 0 <= i < j < |e.words|
      ensures grown[i] != grown[j]
    {
      assert grown[i][|grown[i]| - 1] == e.words[i];
      assert grown[j][|grown[j]| - 1] == e.words[j];
    }
  }

  // ---------------------------------------------------------------------
  // Beam width 1 is greedy decoding

  /** A one-row expansion picks the row's greedy arg-max token. */
  lemma ExpandSingle<M, K>(model: Model<M, K>, mem: M, mask: K, s: Score, p: seq<Token>)
    requires model.vocabSize > 0
    ensures var e := Expand(model, mem, mask, [s], [p]);
      e.parents == [0] && e.words == [ArgMax(model, mem, mask, p)]
  {
    var flat := Flat(model, mem, mask, [s], [p]);
    var fw := FlatWords(model, mem, mask, [p]);
    var e := Select(flat, fw, 1);
    assert e.idxs[0] == 0;
    TopOneIsArgMax(model, mem, mask, p);
    assert fw[0] == FlatWord(model, mem, mask, [p], 0) == RowTop(model, mem, mask, p, 1)[0];
  }

  /** On a one-row beam the two selections are [0] and []. */
  lemma WhereSingle(w: Token, eos: Token, eq: bool)
    ensures Where([w], eos, eq) == if (w == eos) == eq then [0] else []
  {
    assert [w][..0] == [];
  }

  /** On a one-row beam a row that emits `</s>` finishes ... */
  lemma AdvanceSingleEnds(s: Score, p: seq<Token>, e: Expansion, eos: Token)
    requires e.parents == [0] && |e.words| == 1 && |e.logps| == 1 && e.words[0] == eos
    ensures Advance(Beam([s], [p], []), e, eos) == Beam([], [], [Hyp(e.logps[0], p + [eos])])
  {
    var grown := Grow([p], e);
    assert grown == [p + [eos]];
    assert e.words == [eos];
    WhereSingle(eos, eos, true);
    WhereSingle(eos, eos, false);
    assert Gather(e.logps, [0]) == [e.logps[0]] && Gather(grown, [0]) == [p + [eos]];
    assert Hyps([e.logps[0]], [p + [eos]]) == [Hyp(e.logps[0], p + [eos])];
  }

  /** ... and any other row stays active. */
  lemma AdvanceSingleStays(s: Score, p: seq<Token>, e: Expansion, eos: Token)
    requires e.parents == [0] && |e.words| == 1 && |e.logps| == 1 && e.words[0] != eos
    ensures Advance(Beam([s], [p], []), e, eos) == Beam([e.logps[0]], [p + [e.words[0]]], [])
  {
    var grown := Grow([p], e);
    assert grown == [p + [e.words[0]]];
    assert e.words == [e.words[0]];
    WhereSingle(e.words[0], eos, true);
    WhereSingle(e.words[0], eos, false);
    assert Gather(e.logps, [0]) == [e.logps[0]] && Gather(grown, [0]) == [p + [e.words[0]]];
  }

  /** One step of a one-row beam appends the row's arg-max token. */
  lemma SingleStep<M, K>(model: Model<M, K>, mem: M, mask: K, s: Score, p: seq<Token>)
    requires model.vocabSize > 0
    ensures var t := ArgMax(model, mem, mask, p);
      var sc := Expand(model, mem, mask, [s], [p]).logps[0];
      BeamStep(model, mem, mask, Beam([s], [p], []))
        == Ok(if t == model.eos then Beam([], [], [Hyp(sc, p + [t])]) else Beam([sc], [p + [t]], []))
  {
    ExpandSingle(model, mem, mask, s, p);
    var e := Expand(model, mem, mask, [s], [p]);
    if e.words[0] == model.eos {
      AdvanceSingleEnds(s, p, e, model.eos);
    } else {
      AdvanceSingleStays(s, p, e, model.eos);
    }
  }

  /** The loop succeeds and the chosen candidate of its final state has the given tokens. */
  ghost predicate Answers(r: Result<Beam>, tokens: seq<Token>)
  {
    r.Ok? && |r.value.logps| == |r.value.hyps| && 0 < |Final(r.value)| && Best(Final(r.value)).tokens == tokens
  }

  /**
   A beam of one hypothesis follows the greedy arg-max: the single best
   token of a log-softmax row is the arg-max of its logits.
   */
  lemma {:induction false} SingleBeamIsGreedy<M, K>(model: Model<M, K>, mem: M, mask: K, s: Score,
                                                   p: seq<Token>, l: int, maxLen: int)
    requires model.vocabSize > 0
    ensures Answers(BeamLoop(model, mem, mask, Beam([s], [p], []), l, maxLen),
                    Extend(model, mem, mask, p, Steps(maxLen, l)))
    decreases Steps(maxLen, l), 1
  {
    if l < maxLen && ArgMax(model, mem, mask, p) == model.eos {
      SingleEnds(model, mem, mask, s, p, l, maxLen);
    } else if l < maxLen {
      SingleContinues(model, mem, mask, s, p, l, maxLen);
    } else {
      BestOfOne(Hyp(s, p));
      assert Final(Beam([s], [p], [])) == [Hyp(s, p)];
    }
  }

  /** A step that emits `</s>` ends the search with the grown hypothesis as its only candidate. */
  lemma SingleEnds<M, K>(model: Model<M, K>, mem: M, mask: K, s: Score, p: seq<Token>, l: int, maxLen: int)
    requires model.vocabSize > 0 && l < maxLen && ArgMax(model, mem, mask, p) == model.eos
    ensures Answers(BeamLoop(model, mem, mask, Beam([s], [p], []), l, maxLen),
                    Extend(model, mem, mask, p, Steps(maxLen, l)))
  {
    var t := model.eos;
    var sc := Expand(model, mem, mask, [s], [p]).logps[0];
    SingleStep(model, mem, mask, s, p);
    var next := Beam([], [], [Hyp(sc, p + [t])]);
    LoopUnfold(model, mem, mask, Beam([s], [p], []), l, maxLen, next);
    BestOfOne(Hyp(sc, p + [t]));
    assert Final(next) == [Hyp(sc, p + [t])];
  }

  /** A step that emits another token leaves a one-row beam, one step further on ... */
  lemma SingleLoopStep<M, K>(model: Model<M, K>, mem: M, mask: K, s: Score, p: seq<Token>, l: int, maxLen: int)
    requires model.vocabSize > 0 && l < maxLen && ArgMax(model, mem, mask, p) != model.eos
    ensures exists sc :: BeamLoop(model, mem, mask, Beam([s], [p], []), l, maxLen)
                      == BeamLoop(model, mem, mask, Beam([sc], [p + [ArgMax(model, mem, mask, p)]], []), l + 1, maxLen)
  {
    var t := ArgMax(model, mem, mask, p);
    var sc := Expand(model, mem, mask, [s], [p]).logps[0];
    SingleStep(model, mem, mask, s, p);
    LoopUnfold(model, mem, mask, Beam([s], [p], []), l, maxLen, Beam([sc], [p + [t]], []));
  }

  /** ... where greedy decoding carries on too. */
  lemma {:induction false} SingleContinues<M, K>(model: Model<M, K>, mem: M, mask: K, s: Score,
                                                p: seq<Token>, l: int, maxLen: int)
    requires model.vocabSize > 0 && l < maxLen && ArgMax(model, mem, mask, p) != model.eos
    ensures Answers(BeamLoop(model, mem, mask, Beam([s], [p], []), l, maxLen),
                    Extend(model, mem, mask, p, Steps(maxLen, l)))
    decreases Steps(maxLen, l), 0
  {
    var t := ArgMax(model, mem, mask, p);
    SingleLoopStep(model, mem, mask, s, p, l, maxLen);
    var sc :| BeamLoop(model, mem, mask, Beam([s], [p], []), l, maxLen)
           == BeamLoop(model, mem, mask, Beam([sc], [p + [t]], []), l + 1, maxLen);
    ExtendNextIteration(model, mem, mask, p, maxLen, l);
    SingleBeamIsGreedy(model, mem, mask, sc, p + [t], l + 1, maxLen);
    assert Answers(BeamLoop(model, mem, mask, Beam([sc], [p + [t]], []), l + 1, maxLen),
                   Extend(model, mem, mask, p, Steps(maxLen, l)));
  }

  lemma BestOfOne(h: Hyp)
    ensures Best([h]) == h
  {
  }

  /** With beam_width 1 beam search returns exactly the greedy decoding. */
  lemma BeamWidthOneIsGreedy<M, K>(model: Model<M, K>, mem: M, mask: K, maxLen: int)
    requires model.vocabSize > 0
    ensures BeamSearch(model, mem, mask, maxLen, 1) == Ok(GreedyDecode(model, mem, mask, maxLen))
  {
    var b0 := InitialBeam(model.bos, 1);
    assert b0 == Beam([Fin(0)], [[model.bos]], []);
    SingleBeamIsGreedy(model, mem, mask, Fin(0), [model.bos], 1, maxLen);
  }

  // ---------------------------------------------------------------------
  // The loop as written

  /**
   `beam_search_helper(memory, mem_mask, max_len, beam_width)`: the loop of
   the search over a beam held in two sequences and a finished list.  Its
   outcome, the raised error included, is exactly BeamSearch.
   */
  method BeamSearchHelper<M, K>(model: Model<M, K>, mem: M, mask: K, maxLen: int, beamWidth: int)
    returns (r: Result<seq<Token>>)
    ensures r == BeamSearch(model, mem, mask, maxLen, beamWidth)
  {
    if beamWidth < 1 {
      return Err(InvalidBeamWidth);
    }
    var init := InitialBeam(model.bos, beamWidth);
    var logps := init.logps;
    var hyps := init.hyps;
    var finished: seq<Hyp> := [];
    ghost var target := BeamLoop(model, mem, mask, init, 1, maxLen);
    var l := 1;
    while l < maxLen
      invariant 0 < |hyps| == |logps| <= beamWidth
      invariant BeamLoop(model, mem, mask, Beam(logps, hyps, finished), l, maxLen) == target
      decreases maxLen - l
    {
      var k := |logps|;
      if k > model.vocabSize {
        return Err(TopKOutOfRange);
      }
      ghost var before := Beam(logps, hyps, finished);
      var e := Expand(model, mem, mask, logps, hyps);
      var grown := Grow(hyps, e);
      var finishedIdx := Where(e.words, model.eos, true);
      var runningIdx := Where(e.words, model.eos, false);
      finished := finished + Hyps(Gather(e.logps, finishedIdx), Gather(grown, finishedIdx));
      logps := Gather(e.logps, runningIdx);
      hyps := Gather(grown, runningIdx);
      assert BeamStep(model, mem, mask, before) == Ok(Beam(logps, hyps, finished));
      if |logps| == 0 {
        assert target == Ok(Beam(logps, hyps, finished));
        break;
      }
      l := l + 1;
    }
    assert target == Ok(Beam(logps, hyps, finished));
    r := Ok(Best(Final(Beam(logps, hyps, finished))).tokens);
  }
}
