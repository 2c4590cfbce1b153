/** The token-window chunker of `load_data.py` (`token_chunk_text`): a window of
    `maxTokens` tokens slides over the encoded text in steps of
    `maxTokens - overlap`, and each window is decoded back to text.

    Tokens are an abstract type; the tokenizer's `encode` and `decode` are
    parameters of the model. */
module TokenChunker {
  import opened Seqs
  import opened Strides

  /** Python's `tokens[from:from + maxTokens]`: the slice is clipped at the end. */
  function WindowAt<T>(tokens: seq<T>, from: nat, maxTokens: nat): seq<T>
    requires from <= |tokens|
  {
    tokens[from..Min(from + maxTokens, |tokens|)]
  }

  /** The windows the loop of `token_chunk_text` produces once `start` has reached
      the given value. */
  function WindowsFrom<T>(tokens: seq<T>, maxTokens: nat, overlap: nat, start: nat): (r: seq<seq<T>>)
    requires overlap < maxTokens
    ensures |r| == if start >= |tokens| then 0 else StrideCount(|tokens| - start, maxTokens - overlap)
    decreases |tokens| - start
  {
    if start >= |tokens| then []
    else [WindowAt(tokens, start, maxTokens)] + WindowsFrom(tokens, maxTokens, overlap, start + maxTokens - overlap)
  }

  /** Window `i` of the loop started at `start` begins `Offset(i, step)` tokens later. */
  lemma {:induction false} WindowFromAt<T>(tokens: seq<T>, maxTokens: nat, overlap: nat, start: nat, i: nat)
    requires overlap < maxTokens
    requires i < |WindowsFrom(tokens, maxTokens, overlap, start)|
    ensures start + Offset(i, maxTokens - overlap) < |tokens|
    ensures WindowsFrom(tokens, maxTokens, overlap, start)[i]
      == WindowAt(tokens, start + Offset(i, maxTokens - overlap), maxTokens)
    decreases i
  {
    if i > 0 {
      var step := maxTokens - overlap;
      WindowFromAt(tokens, maxTokens, overlap, start + step, i - 1);
    }
  }

  /** `w` is window number `i`: the (clipped) `maxTokens` tokens from `i * step`, where
      the stride `step` is `maxTokens - overlap`. */
  ghost predicate IsWindow<T>(tokens: seq<T>, maxTokens: nat, overlap: nat, i: nat, w: seq<T>)
    requires overlap < maxTokens
  {
    var from := Offset(i, maxTokens - overlap);
    from < |tokens| && w == WindowAt(tokens, from, maxTokens)
  }

  /** `token_chunk_text` on an already-encoded text: window `i` is the tokens from
      `i * step` up to `maxTokens` further, clipped at the end. The source loop never ends
      when `maxTokens <= overlap` and there is at least one token, so that case is
      excluded. */
  function TokenChunks<T>(tokens: seq<T>, maxTokens: nat, overlap: nat): (r: seq<seq<T>>)
    requires |tokens| == 0 || overlap < maxTokens
    ensures |tokens| == 0 ==> r == []
    ensures |tokens| > 0 ==> |r| == StrideCount(|tokens|, maxTokens - overlap)
    ensures forall i | 0 <= i < |r| :: overlap < maxTokens && IsWindow(tokens, maxTokens, overlap, i, r[i])
  {
    if |tokens| == 0 then []
    else
      var r := WindowsFrom(tokens, maxTokens, overlap, 0);
      AllWindowsAt(tokens, maxTokens, overlap);
      r
  }

  lemma AllWindowsAt<T>(tokens: seq<T>, maxTokens: nat, overlap: nat)
    requires overlap < maxTokens
    ensures forall i | 0 <= i < |WindowsFrom(tokens, maxTokens, overlap, 0)| ::
      IsWindow(tokens, maxTokens, overlap, i, WindowsFrom(tokens, maxTokens, overlap, 0)[i])
  {
    var r := WindowsFrom(tokens, maxTokens, overlap, 0);
    forall i | 0 <= i < |r|
      ensures IsWindow(tokens, maxTokens, overlap, i, r[i])
    {
      WindowFromAt(tokens, maxTokens, overlap, 0, i);
    }
  }

  /** `token_chunk_text(text, maxTokens, overlap)`: the windows of `encode(text)`, each
      decoded. */
  function TokenChunkText<T>(text: string, encode: string -> seq<T>, decode: seq<T> -> string,
                             maxTokens: nat, overlap: nat): (r: seq<string>)
    requires |encode(text)| == 0 || overlap < maxTokens
    ensures |r| == |TokenChunks(encode(text), maxTokens, overlap)|
    ensures forall i | 0 <= i < |r| :: r[i] == decode(TokenChunks(encode(text), maxTokens, overlap)[i])
  {
    var windows := TokenChunks(encode(text), maxTokens, overlap);
    seq(|windows|, i requires 0 <= i < |windows| => decode(windows[i]))
  }

  /** The `while start < len(tokens)` loop of `token_chunk_text`, statement by statement. */
  method TokenChunkLoop<T>(tokens: seq<T>, maxTokens: nat, overlap: nat) returns (chunks: seq<seq<T>>)
    requires |tokens| == 0 || overlap < maxTokens
    ensures chunks == TokenChunks(tokens, maxTokens, overlap)
  {
    chunks := [];
    if |tokens| == 0 {
      return;
    }
    var start := 0;
    while start < |tokens|
      invariant chunks + WindowsFrom(tokens, maxTokens, overlap, start) == WindowsFrom(tokens, maxTokens, overlap, 0)
      decreases |tokens| - start
    {
      var end := start + maxTokens;
      var chunkTokens := tokens[start..Min(end, |tokens|)];
      assert WindowsFrom(tokens, maxTokens, overlap, start)
        == [chunkTokens] + WindowsFrom(tokens, maxTokens, overlap, start + (maxTokens - overlap));
      chunks := chunks + [chunkTokens];
      start := start + (maxTokens - overlap);
    }
  }

  /** For `n` tokens there are ceil(n / step) windows, window `i` starts at token
      `i * step`, and each holds between one and `maxTokens` tokens. */
  lemma WindowShape<T>(tokens: seq<T>, maxTokens: nat, overlap: nat, r: seq<seq<T>>, i: nat)
    requires overlap < maxTokens && r == TokenChunks(tokens, maxTokens, overlap)
    requires i < |r|
    ensures |r| == CeilDiv(|tokens|, maxTokens - overlap)
    ensures 0 < |r[i]| <= maxTokens
    ensures i * (maxTokens - overlap) < |tokens|
    ensures r[i] == tokens[i * (maxTokens - overlap)..Min(i * (maxTokens - overlap) + maxTokens, |tokens|)]
  {
    StrideCountIsCeil(|tokens|, maxTokens - overlap);
    OffsetIsProduct(i, maxTokens - overlap);
    assert IsWindow(tokens, maxTokens, overlap, i, r[i]);
  }

  lemma {:induction false} CoverFrom<T>(tokens: seq<T>, maxTokens: nat, overlap: nat, start: nat, j: nat)
    requires overlap < maxTokens && start <= j < |tokens|
    ensures exists i | 0 <= i < |WindowsFrom(tokens, maxTokens, overlap, start)| ::
      start + Offset(i, maxTokens - overlap) <= j < start + Offset(i, maxTokens - overlap) + |WindowsFrom(tokens, maxTokens, overlap, start)[i]|
    decreases |tokens| - start
  {
    var step := maxTokens - overlap;
    var r := WindowsFrom(tokens, maxTokens, overlap, start);
    if j < start + step {
      assert r[0] == WindowAt(tokens, start, maxTokens);
      assert start + Offset(0, step) <= j < start + Offset(0, step) + |r[0]|;
    } else {
      CoverFrom(tokens, maxTokens, overlap, start + step, j);
      var rest := WindowsFrom(tokens, maxTokens, overlap, start + step);
      var k :| 0 <= k < |rest| && start + step + Offset(k, step) <= j < start + step + Offset(k, step) + |rest[k]|;
      assert r[k + 1] == rest[k];
      assert start + Offset(k + 1, step) <= j < start + Offset(k + 1, step) + |r[k + 1]|;
    }
  }

  /** Every token index lies inside some window. */
  lemma WindowsCover<T>(tokens: seq<T>, maxTokens: nat, overlap: nat, r: seq<seq<T>>, j: nat)
    requires overlap < maxTokens && r == TokenChunks(tokens, maxTokens, overlap)
    requires j < |tokens|
    ensures exists i | 0 <= i < |r| :: i * (maxTokens - overlap) <= j < i * (maxTokens - overlap) + |r[i]|
  {
    CoverFrom(tokens, maxTokens, overlap, 0, j);
    var i :| 0 <= i < |r| && Offset(i, maxTokens - overlap) <= j < Offset(i, maxTokens - overlap) + |r[i]|;
    OffsetIsProduct(i, maxTokens - overlap);
  }

  lemma {:induction false} LastEndsFrom<T>(tokens: seq<T>, maxTokens: nat, overlap: nat, start: nat)
    requires overlap < maxTokens && start < |tokens|
    ensures |WindowsFrom(tokens, maxTokens, overlap, start)| > 0
    ensures start + Offset(|WindowsFrom(tokens, maxTokens, overlap, start)| - 1, maxTokens - overlap)
      + |WindowsFrom(tokens, maxTokens, overlap, start)[|WindowsFrom(tokens, maxTokens, overlap, start)| - 1]|
      == |tokens|
    decreases |tokens| - start
  {
    var step := maxTokens - overlap;
    var r := WindowsFrom(tokens, maxTokens, overlap, start);
    var rest := WindowsFrom(tokens, maxTokens, overlap, start + step);
    assert r == [WindowAt(tokens, start, maxTokens)] + rest;
    if start + step < |tokens| {
      LastEndsFrom(tokens, maxTokens, overlap, start + step);
      assert r[|r| - 1] == rest[|rest| - 1];
      assert Offset(|r| - 1, step) == Offset(|rest| - 1, step) + step;
    }
  }

  /** The last window ends at the last token. */
  lemma LastWindowEndsAtEnd<T>(tokens: seq<T>, maxTokens: nat, overlap: nat, r: seq<seq<T>>)
    requires overlap < maxTokens && r == TokenChunks(tokens, maxTokens, overlap)
    requires |tokens| > 0
    ensures |r| > 0 && (|r| - 1) * (maxTokens - overlap) + |r[|r| - 1]| == |tokens|
  {
    LastEndsFrom(tokens, maxTokens, overlap, 0);
    OffsetIsProduct(|r| - 1, maxTokens - overlap);
  }

  /** Consecutive windows overlap: the tail of window `i` after its first `step`
      tokens starts window `i + 1`; a full window shares exactly `overlap` tokens with
      its successor. */
  lemma ConsecutiveWindowsOverlap<T>(tokens: seq<T>, maxTokens: nat, overlap: nat, r: seq<seq<T>>, i: nat)
    requires overlap < maxTokens && r == TokenChunks(tokens, maxTokens, overlap)
    requires i + 1 < |r|
    ensures |r[i]| >= maxTokens - overlap
    ensures r[i][maxTokens - overlap..] == r[i + 1][..|r[i]| - (maxTokens - overlap)]
    ensures |r[i]| == maxTokens ==> |r[i][maxTokens - overlap..]| == overlap
  {
    var step := maxTokens - overlap;
    assert IsWindow(tokens, maxTokens, overlap, i, r[i]);
    assert IsWindow(tokens, maxTokens, overlap, i + 1, r[i + 1]);
    var from := Offset(i, step);
    assert Offset(i + 1, step) == from + step;
    assert from + step < |tokens|;
    assert |r[i]| == Min(from + maxTokens, |tokens|) - from;
  }

  /** Puts the token sequence back together: every window but the last contributes its
      first `step` tokens, the last contributes all of its tokens. */
  function Reassemble<T>(windows: seq<seq<T>>, step: nat): seq<T> {
    if |windows| == 0 then []
    else if |windows| == 1 then windows[0]
    else windows[0][..Min(step, |windows[0]|)] + Reassemble(windows[1..], step)
  }

  lemma {:induction false} ReassembleFrom<T>(tokens: seq<T>, maxTokens: nat, overlap: nat, start: nat)
    requires overlap < maxTokens && start <= |tokens|
    ensures Reassemble(WindowsFrom(tokens, maxTokens, overlap, start), maxTokens - overlap) == tokens[start..]
    decreases |tokens| - start
  {
    var step := maxTokens - overlap;
    var r := WindowsFrom(tokens, maxTokens, overlap, start);
    if start < |tokens| {
      var rest := WindowsFrom(tokens, maxTokens, overlap, start + step);
      assert r == [WindowAt(tokens, start, maxTokens)] + rest;
      assert r[1..] == rest;
      if start + step >= |tokens| {
        assert r[0] == tokens[start..];
      } else {
        ReassembleFrom(tokens, maxTokens, overlap, start + step);
        WindowPrefix(tokens, start, maxTokens, step);
        assert r[0][..step] == tokens[start..start + step];
        assert tokens[start..] == tokens[start..start + step] + tokens[start + step..];
      }
    }
  }

  /** The first `step` tokens of a window that reaches past them are the input's tokens
      from the window's start. */
  lemma WindowPrefix<T>(tokens: seq<T>, start: nat, maxTokens: nat, step: nat)
    requires step <= maxTokens && start + step <= |tokens|
    ensures |WindowAt(tokens, start, maxTokens)| >= step
    ensures WindowAt(tokens, start, maxTokens)[..step] == tokens[start..start + step]
  {
    var w := WindowAt(tokens, start, maxTokens);
    assert w == tokens[start..Min(start + maxTokens, |tokens|)];
  }

  /** Dropping the overlapping part of each window recovers the input exactly. */
  lemma WindowsReassemble<T>(tokens: seq<T>, maxTokens: nat, overlap: nat)
    requires overlap < maxTokens
    ensures Reassemble(TokenChunks(tokens, maxTokens, overlap), maxTokens - overlap) == tokens
  {
    ReassembleFrom(tokens, maxTokens, overlap, 0);
    assert tokens[0..] == tokens;
  }

  /** 2500 tokens in windows of 1000 overlapping by 200 give four windows, the last
      one covering tokens 2400..2500. */
  lemma Example2500Tokens<T>(tokens: seq<T>, r: seq<seq<T>>)
    requires |tokens| == 2500 && r == TokenChunks(tokens, 1000, 200)
    ensures |r| == 4
    ensures |r[0]| == |r[1]| == 1000 && |r[2]| == 900 && r[3] == tokens[2400..]
  {
    assert StrideCount(100, 800) == 1;
    assert StrideCount(900, 800) == 2;
    assert StrideCount(1700, 800) == 3;
    assert StrideCount(2500, 800) == 4;
    assert Offset(1, 800) == 800;
    assert Offset(2, 800) == 1600;
    assert Offset(3, 800) == 2400;
    assert IsWindow(tokens, 1000, 200, 0, r[0]);
    assert IsWindow(tokens, 1000, 200, 1, r[1]);
    assert IsWindow(tokens, 1000, 200, 2, r[2]);
    assert IsWindow(tokens, 1000, 200, 3, r[3]);
  }
}
