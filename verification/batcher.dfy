/** `create_token_safe_batches` of `load_data.py`: chunks are grouped, in order, into
    batches whose token total stays within the embedding request budget; a chunk that
    alone exceeds the budget travels in a batch of its own. The tokenizer's count is a
    parameter of the model. */
module Batcher {
  import opened Seqs

  /** Total token count of a batch. */
  function TokenSum<C>(batch: seq<C>, count: C -> nat): nat {
    if |batch| == 0 then 0 else TokenSum(batch[..|batch| - 1], count) + count(batch[|batch| - 1])
  }

  lemma TokenSumSnoc<C>(batch: seq<C>, c: C, count: C -> nat)
    ensures TokenSum(batch + [c], count) == TokenSum(batch, count) + count(c)
  {
    assert (batch + [c])[..|batch|] == batch;
  }

  /** Every chunk of the batch fits the budget on its own. */
  predicate AllFit<C>(batch: seq<C>, count: C -> nat, maxTokens: int) {
    forall i | 0 <= i < |batch| :: count(batch[i]) <= maxTokens
  }

  /** A batch the source accepts: non-empty, and either a single oversized chunk or a run
      of fitting chunks whose total is within the budget. */
  predicate WellFormedBatch<C>(batch: seq<C>, count: C -> nat, maxTokens: int) {
    && |batch| > 0
    && ((|batch| == 1 && count(batch[0]) > maxTokens)
        || (AllFit(batch, count, maxTokens) && TokenSum(batch, count) <= maxTokens))
  }

  /** Greedy packing: a batch of fitting chunks was closed only because the next chunk
      would have pushed it over the budget. */
  predicate Greedy<C>(batches: seq<seq<C>>, count: C -> nat, maxTokens: int)
    requires forall i | 0 <= i < |batches| :: |batches[i]| > 0
  {
    forall i | 0 <= i < |batches| - 1 && AllFit(batches[i], count, maxTokens) ::
      TokenSum(batches[i], count) + count(batches[i + 1][0]) > maxTokens
  }

  /** The loop state: the closed batches, `current_batch` and `current_tokens`. */
  datatype BatchState<C> = BatchState(batches: seq<seq<C>>, current: seq<C>, currentTokens: nat)

  /** What holds of the loop state between two chunks. */
  ghost predicate Invariant<C>(st: BatchState<C>, count: C -> nat, maxTokens: int) {
    && (forall i | 0 <= i < |st.batches| :: WellFormedBatch(st.batches[i], count, maxTokens))
    && st.currentTokens == TokenSum(st.current, count)
    && (st.current != [] ==> st.currentTokens <= maxTokens)
    && AllFit(st.current, count, maxTokens)
    && Greedy(st.batches, count, maxTokens)
    && (|st.batches| > 0 && |st.current| > 0 && AllFit(st.batches[|st.batches| - 1], count, maxTokens) ==>
          TokenSum(st.batches[|st.batches| - 1], count) + count(st.current[0]) > maxTokens)
    && (|st.batches| > 0 && st.current == [] ==> !AllFit(st.batches[|st.batches| - 1], count, maxTokens))
  }

  /** One iteration of `for chunk in chunks`: close the current batch if the chunk does
      not fit, then either emit the chunk alone (oversized) or add it to the current batch. */
  function AddChunk<C>(st: BatchState<C>, chunk: C, count: C -> nat, maxTokens: int): BatchState<C> {
    var tokens := count(chunk);
    var st' := if st.currentTokens + tokens > maxTokens && st.current != []
               then BatchState(st.batches + [st.current], [], 0)
               else st;
    if tokens > maxTokens then BatchState(st'.batches + [[chunk]], st'.current, st'.currentTokens)
    else BatchState(st'.batches, st'.current + [chunk], st'.currentTokens + tokens)
  }

  /** One iteration keeps the invariant and consumes exactly one chunk, in order. */
  lemma AddChunkStep<C>(st: BatchState<C>, chunk: C, count: C -> nat, maxTokens: int)
    requires Invariant(st, count, maxTokens)
    ensures Invariant(AddChunk(st, chunk, count, maxTokens), count, maxTokens)
    ensures var r := AddChunk(st, chunk, count, maxTokens);
      Flatten(r.batches) + r.current == Flatten(st.batches) + st.current + [chunk]
  {
    var tokens := count(chunk);
    var close := st.currentTokens + tokens > maxTokens && st.current != [];
    if close && tokens > maxTokens {
      CloseThenAlone(st, chunk, count, maxTokens);
      FlattenSnoc(st.batches, st.current);
      FlattenSnoc(st.batches + [st.current], [chunk]);
    } else if close {
      CloseThenStart(st, chunk, count, maxTokens);
      FlattenSnoc(st.batches, st.current);
    } else if tokens > maxTokens {
      Alone(st, chunk, count, maxTokens);
      FlattenSnoc(st.batches, [chunk]);
    } else {
      Extend(st, chunk, count, maxTokens);
    }
  }

  /** Every batch stays well formed when a well-formed batch is appended. */
  lemma AllWellFormedSnoc<C>(batches: seq<seq<C>>, b: seq<C>, count: C -> nat, maxTokens: int)
    requires forall i | 0 <= i < |batches| :: WellFormedBatch(batches[i], count, maxTokens)
    requires WellFormedBatch(b, count, maxTokens)
    ensures forall i | 0 <= i < |batches + [b]| :: WellFormedBatch((batches + [b])[i], count, maxTokens)
  {
    forall i | 0 <= i < |batches + [b]|
      ensures WellFormedBatch((batches + [b])[i], count, maxTokens)
    {
      if i < |batches| {
        assert (batches + [b])[i] == batches[i];
      }
    }
  }

  /** A single chunk is a well-formed batch, and it fits exactly when its count does. */
  lemma Single<C>(chunk: C, count: C -> nat, maxTokens: int)
    ensures TokenSum([chunk], count) == count(chunk)
    ensures AllFit([chunk], count, maxTokens) <==> count(chunk) <= maxTokens
    ensures WellFormedBatch([chunk], count, maxTokens)
  {
    assert [chunk][..0] == [];
  }

  /** The chunk overflows a non-empty current batch and is itself oversized: the current
      batch is closed and the chunk goes alone after it. */
  lemma CloseThenAlone<C>(st: BatchState<C>, chunk: C, count: C -> nat, maxTokens: int)
    requires Invariant(st, count, maxTokens)
    requires st.current != [] && count(chunk) > maxTokens
    ensures AddChunk(st, chunk, count, maxTokens) == BatchState(st.batches + [st.current] + [[chunk]], [], 0)
    ensures Invariant(BatchState(st.batches + [st.current] + [[chunk]], [], 0), count, maxTokens)
  {
    var mid := st.batches + [st.current];
    AllWellFormedSnoc(st.batches, st.current, count, maxTokens);
    GreedySnoc(st.batches, st.current, count, maxTokens);
    Single(chunk, count, maxTokens);
    AllWellFormedSnoc(mid, [chunk], count, maxTokens);
    GreedySnoc(mid, [chunk], count, maxTokens);
  }

  /** The chunk overflows a non-empty current batch but fits on its own: the current
      batch is closed and the chunk starts the next one. */
  lemma CloseThenStart<C>(st: BatchState<C>, chunk: C, count: C -> nat, maxTokens: int)
    requires Invariant(st, count, maxTokens)
    requires st.current != [] && st.currentTokens + count(chunk) > maxTokens && count(chunk) <= maxTokens
    ensures AddChunk(st, chunk, count, maxTokens) == BatchState(st.batches + [st.current], [chunk], count(chunk))
    ensures Invariant(BatchState(st.batches + [st.current], [chunk], count(chunk)), count, maxTokens)
  {
    AllWellFormedSnoc(st.batches, st.current, count, maxTokens);
    GreedySnoc(st.batches, st.current, count, maxTokens);
    Single(chunk, count, maxTokens);
    assert [] + [chunk] == [chunk];
  }

  /** An oversized chunk with no current batch open goes alone. */
  lemma Alone<C>(st: BatchState<C>, chunk: C, count: C -> nat, maxTokens: int)
    requires Invariant(st, count, maxTokens)
    requires !(st.currentTokens + count(chunk) > maxTokens && st.current != []) && count(chunk) > maxTokens
    ensures st.current == []
    ensures AddChunk(st, chunk, count, maxTokens) == BatchState(st.batches + [[chunk]], [], 0)
    ensures Invariant(BatchState(st.batches + [[chunk]], [], 0), count, maxTokens)
  {
    Single(chunk, count, maxTokens);
    AllWellFormedSnoc(st.batches, [chunk], count, maxTokens);
    GreedySnoc(st.batches, [chunk], count, maxTokens);
  }

  /** A chunk that fits the open batch joins it. */
  lemma Extend<C>(st: BatchState<C>, chunk: C, count: C -> nat, maxTokens: int)
    requires Invariant(st, count, maxTokens)
    requires !(st.currentTokens + count(chunk) > maxTokens && st.current != []) && count(chunk) <= maxTokens
    ensures AddChunk(st, chunk, count, maxTokens)
         == BatchState(st.batches, st.current + [chunk], st.currentTokens + count(chunk))
    ensures Invariant(BatchState(st.batches, st.current + [chunk], st.currentTokens + count(chunk)), count, maxTokens)
  {
    TokenSumSnoc(st.current, chunk, count);
    var cur := st.current + [chunk];
    assert forall i | 0 <= i < |cur| :: cur[i] == if i < |st.current| then st.current[i] else chunk;
    if st.current != [] {
      assert cur[0] == st.current[0];
    }
  }

  /** Appending a batch keeps the packing greedy when the previous last batch had a
      reason to be closed. */
  lemma GreedySnoc<C>(batches: seq<seq<C>>, next: seq<C>, count: C -> nat, maxTokens: int)
    requires forall i | 0 <= i < |batches| :: |batches[i]| > 0
    requires |next| > 0
    requires Greedy(batches, count, maxTokens)
    requires |batches| > 0 && AllFit(batches[|batches| - 1], count, maxTokens) ==>
      TokenSum(batches[|batches| - 1], count) + count(next[0]) > maxTokens
    ensures Greedy(batches + [next], count, maxTokens)
  {
    var r := batches + [next];
    forall i | 0 <= i < |r| - 1 && AllFit(r[i], count, maxTokens)
      ensures TokenSum(r[i], count) + count(r[i + 1][0]) > maxTokens
    {
      assert r[i] == batches[i];
      if i + 1 < |batches| {
        assert r[i + 1] == batches[i + 1];
      }
    }
  }

  /** `create_token_safe_batches(chunks, max_tokens)`, where `max_tokens` defaults to 8191.
      Concatenating the batches gives back the input; every batch is well formed; packing
      is greedy. */
  method CreateTokenSafeBatches<C>(chunks: seq<C>, count: C -> nat, maxTokens: int)
    returns (batches: seq<seq<C>>)
    ensures Flatten(batches) == chunks
    ensures forall i | 0 <= i < |batches| :: WellFormedBatch(batches[i], count, maxTokens)
    ensures forall i, c | 0 <= i < |batches| && c in batches[i] && count(c) > maxTokens :: batches[i] == [c]
    ensures forall i | 0 <= i < |batches| :: |batches[i]| > 0
    ensures Greedy(batches, count, maxTokens)
  {
    var st := BatchState([], [], 0);
    assert chunks[..0] == [];
    for k := 0 to |chunks|
      invariant Reached(st, chunks, k, count, maxTokens)
    {
      Advance(st, chunks, k, count, maxTokens);
      st := AddChunk(st, chunks[k], count, maxTokens);
    }
    Finished(st, chunks, count, maxTokens);
    batches := CloseLast(st);
  }

  /** The loop invariant after `k` chunks: the state is sound and holds exactly those
      chunks, in order. */
  ghost predicate Reached<C>(st: BatchState<C>, chunks: seq<C>, k: int, count: C -> nat, maxTokens: int)
    requires 0 <= k <= |chunks|
  {
    Invariant(st, count, maxTokens) && Flatten(st.batches) + st.current == chunks[..k]
  }

  /** Adding the next chunk reaches the next position. */
  lemma Advance<C>(st: BatchState<C>, chunks: seq<C>, k: int, count: C -> nat, maxTokens: int)
    requires 0 <= k < |chunks| && Reached(st, chunks, k, count, maxTokens)
    ensures Reached(AddChunk(st, chunks[k], count, maxTokens), chunks, k + 1, count, maxTokens)
  {
    AddChunkStep(st, chunks[k], count, maxTokens);
    assert chunks[..k + 1] == chunks[..k] + [chunks[k]];
  }

  /** The final `if current_batch: batches.append(current_batch)`. */
  function CloseLast<C>(st: BatchState<C>): seq<seq<C>> {
    if st.current != [] then st.batches + [st.current] else st.batches
  }

  /** After the last chunk the open batch, if any, is appended. */
  lemma Finished<C>(st: BatchState<C>, chunks: seq<C>, count: C -> nat, maxTokens: int)
    requires Reached(st, chunks, |chunks|, count, maxTokens)
    ensures var r := CloseLast(st);
      && Flatten(r) == chunks
      && (forall i | 0 <= i < |r| :: WellFormedBatch(r[i], count, maxTokens))
      && (forall i, c | 0 <= i < |r| && c in r[i] && count(c) > maxTokens :: r[i] == [c])
      && (forall i | 0 <= i < |r| :: |r[i]| > 0)
      && Greedy(r, count, maxTokens)
  {
    var r := CloseLast(st);
    assert chunks[..|chunks|] == chunks;
    if st.current != [] {
      FlattenSnoc(st.batches, st.current);
      GreedySnoc(st.batches, st.current, count, maxTokens);
      AllWellFormedSnoc(st.batches, st.current, count, maxTokens);
    }
    OversizedAlone(r, count, maxTokens);
  }

  /** In well-formed batches an oversized chunk is always alone. */
  lemma OversizedAlone<C>(batches: seq<seq<C>>, count: C -> nat, maxTokens: int)
    requires forall i | 0 <= i < |batches| :: WellFormedBatch(batches[i], count, maxTokens)
    ensures forall i, c | 0 <= i < |batches| && c in batches[i] && count(c) > maxTokens :: batches[i] == [c]
  {
    forall i, c | 0 <= i < |batches| && c in batches[i] && count(c) > maxTokens
      ensures batches[i] == [c]
    {
      var j :| 0 <= j < |batches[i]| && batches[i][j] == c;
    }
  }
}
