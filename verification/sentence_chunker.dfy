/** The character-budget chunker of `load_data.py` (`chunk_text`): the text is split
    into sentences with `re.split(r'(?<=[.!?]) +', text)`, and sentences are packed
    greedily into chunks of about `max_chars` characters, each new chunk seeded with the
    last `overlap` characters of the previous one. */
module SentenceChunker {
  import opened Seqs
  import opened Text

  /** A character the split pattern's look-behind accepts. */
  predicate IsTerminator(c: char) {
    c == '.' || c == '!' || c == '?'
  }

  /** The split pattern matches at `k`: a space right after a sentence terminator. */
  predicate IsBreak(s: string, k: int) {
    1 <= k < |s| && IsTerminator(s[k - 1]) && s[k] == ' '
  }

  /** The text contains no place where the split pattern matches. */
  predicate NoBreak(s: string) {
    forall k | 0 <= k < |s| :: !IsBreak(s, k)
  }

  /** The first match of the split pattern at or after `i`, or `|s|` when there is none. */
  function FirstBreak(s: string, i: nat): (k: nat)
    requires i <= |s|
    ensures i <= k <= |s|
    ensures k < |s| ==> IsBreak(s, k)
    ensures forall m | i <= m < k :: !IsBreak(s, m)
    decreases |s| - i
  {
    if i == |s| then |s| else if IsBreak(s, i) then i else FirstBreak(s, i + 1)
  }

  /** Length of the run of spaces the pattern ` +` consumes from `k`. */
  function SpaceRun(s: string, k: nat): (n: nat)
    requires k <= |s|
    ensures k + n <= |s|
    ensures forall m | k <= m < k + n :: s[m] == ' '
    ensures k + n < |s| ==> s[k + n] != ' '
    decreases |s| - k
  {
    if k == |s| || s[k] != ' ' then 0 else 1 + SpaceRun(s, k + 1)
  }

  /** `re.split(r'(?<=[.!?]) +', s)`: cut at every run of spaces that follows a `.`, `!`
      or `?`, dropping the spaces. There is always at least one piece, every piece but the
      last ends with a terminator, and no piece contains a place where the pattern matches. */
  function SplitSentences(s: string): (r: seq<string>)
    ensures |r| >= 1
    ensures forall i | 0 <= i < |r| - 1 :: |r[i]| > 0 && IsTerminator(r[i][|r[i]| - 1])
    ensures forall i | 0 <= i < |r| :: NoBreak(r[i])
    decreases |s|
  {
    if |s| == 0 then [s]
    else
      var k := FirstBreak(s, 1);
      if k == |s| then [s]
      else
        var j := k + SpaceRun(s, k);
        var head := s[..k];
        assert NoBreak(head) by {
          forall m | 1 <= m < |head|
            ensures !IsBreak(head, m)
          {
            assert head[m - 1] == s[m - 1] && head[m] == s[m];
            assert !IsBreak(s, m);
          }
        }
        [head] + SplitSentences(s[j..])
  }

  /** The string with every space removed. */
  function DropSpaces(s: string): string {
    if |s| == 0 then [] else (if s[0] == ' ' then [] else [s[0]]) + DropSpaces(s[1..])
  }

  lemma {:induction false} DropSpacesAppend(a: string, b: string)
    ensures DropSpaces(a + b) == DropSpaces(a) + DropSpaces(b)
  {
    if |a| > 0 {
      assert (a + b)[1..] == a[1..] + b;
      DropSpacesAppend(a[1..], b);
    } else {
      assert a + b == b;
    }
  }

  lemma {:induction false} DropSpacesOfSpaces(s: string)
    requires forall m | 0 <= m < |s| :: s[m] == ' '
    ensures DropSpaces(s) == []
  {
    if |s| > 0 {
      DropSpacesOfSpaces(s[1..]);
    }
  }

  /** Removing a run of spaces between two texts does not change their spaceless form. */
  lemma {:induction false} DropSpacesAcrossGap(head: string, gap: string, tail: string, tailPieces: string)
    requires forall m | 0 <= m < |gap| :: gap[m] == ' '
    requires DropSpaces(tailPieces) == DropSpaces(tail)
    ensures DropSpaces(head + tailPieces) == DropSpaces(head + gap + tail)
  {
    DropSpacesAppend(head, tailPieces);
    assert head + gap + tail == head + (gap + tail);
    DropSpacesAppend(head, gap + tail);
    DropSpacesAppend(gap, tail);
    DropSpacesOfSpaces(gap);
  }

  /** Splitting only removes spaces: every other character survives, in order. */
  lemma {:induction false} SplitKeepsText(s: string)
    ensures DropSpaces(Flatten(SplitSentences(s))) == DropSpaces(s)
    decreases |s|
  {
    if |s| > 0 {
      var k := FirstBreak(s, 1);
      if k == |s| {
        SplitWhole(s);
      } else {
        var j := k + SpaceRun(s, k);
        SplitCons(s, k, j);
        SplitKeepsText(s[j..]);
        DropSpacesAcrossGap(s[..k], s[k..j], s[j..], Flatten(SplitSentences(s[j..])));
      }
    }
  }

  /** Without a break the text is a single piece. */
  lemma SplitWhole(s: string)
    requires |s| > 0 && FirstBreak(s, 1) == |s|
    ensures Flatten(SplitSentences(s)) == s
  {
    var r := SplitSentences(s);
    assert r == [s];
    assert Flatten(r) == s + Flatten(r[1..]);
    assert s + [] == s;
  }

  /** At the first break the text is the first piece, a run of spaces, and the rest. */
  lemma SplitCons(s: string, k: nat, j: nat)
    requires |s| > 0 && k == FirstBreak(s, 1) && k < |s| && j == k + SpaceRun(s, k)
    ensures k <= j <= |s|
    ensures Flatten(SplitSentences(s)) == s[..k] + Flatten(SplitSentences(s[j..]))
    ensures forall m | 0 <= m < |s[k..j]| :: s[k..j][m] == ' '
    ensures s[..k] + s[k..j] + s[j..] == s
  {
    SplitUnfold(s, k, j);
    FlattenCons(s[..k], SplitSentences(s[j..]));
    GapIsSpaces(s, k, j);
  }

  /** One step of the split: the first piece, then the split of the rest. */
  lemma SplitUnfold(s: string, k: nat, j: nat)
    requires |s| > 0 && k == FirstBreak(s, 1) && k < |s| && j == k + SpaceRun(s, k)
    ensures j <= |s|
    ensures SplitSentences(s) == [s[..k]] + SplitSentences(s[j..])
  {
  }

  lemma FlattenCons(head: string, rest: seq<string>)
    ensures Flatten([head] + rest) == head + Flatten(rest)
  {
    assert ([head] + rest)[1..] == rest;
  }

  /** The characters the space run covers are spaces, and the three parts rebuild the text. */
  lemma GapIsSpaces(s: string, k: nat, j: nat)
    requires k <= |s| && j == k + SpaceRun(s, k)
    ensures k <= j <= |s|
    ensures forall m | 0 <= m < |s[k..j]| :: s[k..j][m] == ' '
    ensures s[..k] + s[k..j] + s[j..] == s
  {
    forall m | 0 <= m < |s[k..j]|
      ensures s[k..j][m] == ' '
    {
      assert s[k..j][m] == s[k + m];
    }
  }

  /** Python's `s[-n:]`. `s[-0:]` is the whole string; a negative `n` drops the first
      `-n` characters instead. */
  function PyTail(s: string, n: int): (r: string)
    ensures n > 0 ==> |r| == Min(n, |s|) && r == s[|s| - |r|..]
    ensures n == 0 ==> r == s
  {
    if n == 0 then s
    else if n > 0 then s[Max(0, |s| - n)..]
    else s[Min(|s|, -n)..]
  }

  /** The loop state of `chunk_text`: the chunks closed so far and `current_chunk`. */
  datatype Packer = Packer(chunks: seq<string>, current: string)

  /** One iteration of the loop over sentences. A chunk is closed exactly when the
      current text and the sentence together exceed `maxChars`; the closed chunk is the
      stripped current text, and the next one is seeded with the current text's last
      `overlap` characters followed by a space and the sentence. */
  function PackSentence(st: Packer, sentence: string, maxChars: int, overlap: int): (r: Packer)
    ensures |r.chunks| == |st.chunks| + (if |st.current| + |sentence| > maxChars then 1 else 0)
    ensures r.chunks[..|st.chunks|] == st.chunks
    ensures |st.current| + |sentence| > maxChars ==>
      && r.chunks[|st.chunks|] == Strip(st.current)
      && r.current == PyTail(st.current, overlap) + " " + sentence
    ensures |st.current| + |sentence| <= maxChars ==> r.current == st.current + " " + sentence
  {
    if |st.current| + |sentence| <= maxChars then
      Packer(st.chunks, st.current + " " + sentence)
    else
      Packer(st.chunks + [Strip(st.current)], PyTail(st.current, overlap) + " " + sentence)
  }

  /** The whole `for sentence in sentences` loop. */
  function PackAll(st: Packer, sentences: seq<string>, maxChars: int, overlap: int): Packer
    decreases |sentences|
  {
    if |sentences| == 0 then st
    else PackAll(PackSentence(st, sentences[0], maxChars, overlap), sentences[1..], maxChars, overlap)
  }

  /** `chunk_text` after the split: pack the sentences and emit the last current text
      when it is non-empty. */
  function ChunkSentences(sentences: seq<string>, maxChars: int, overlap: int): seq<string> {
    var st := PackAll(Packer([], ""), sentences, maxChars, overlap);
    if st.current != "" then st.chunks + [Strip(st.current)] else st.chunks
  }

  /** `chunk_text(text, max_chars, overlap)`. */
  function ChunkText(text: string, maxChars: int, overlap: int): seq<string> {
    ChunkSentences(SplitSentences(text), maxChars, overlap)
  }

  /** `cur` ends with a space followed by `sentence`. */
  predicate EndsWithSentence(cur: string, sentence: string) {
    |cur| > |sentence| && cur[|cur| - |sentence| - 1..] == " " + sentence
  }

  /** Chunks are only ever appended, at most one per sentence. */
  lemma {:induction false} PackAllKeepsChunks(st: Packer, sentences: seq<string>, maxChars: int, overlap: int)
    ensures |st.chunks| <= |PackAll(st, sentences, maxChars, overlap).chunks| <= |st.chunks| + |sentences|
    ensures PackAll(st, sentences, maxChars, overlap).chunks[..|st.chunks|] == st.chunks
    decreases |sentences|
  {
    if |sentences| > 0 {
      var next := PackSentence(st, sentences[0], maxChars, overlap);
      PackAllKeepsChunks(next, sentences[1..], maxChars, overlap);
      var r := PackAll(next, sentences[1..], maxChars, overlap);
      assert r.chunks[..|next.chunks|][..|st.chunks|] == r.chunks[..|st.chunks|];
    }
  }

  /** After at least one sentence the current text ends with a space and the last
      sentence, so it is never empty. */
  lemma {:induction false} PackAllEndsWithLast(st: Packer, sentences: seq<string>, maxChars: int, overlap: int)
    requires |sentences| > 0
    ensures EndsWithSentence(PackAll(st, sentences, maxChars, overlap).current, sentences[|sentences| - 1])
    decreases |sentences|
  {
    var rest := sentences[1..];
    assert |rest| > 0 ==> rest[|rest| - 1] == sentences[|sentences| - 1];
    var next := PackSentence(st, sentences[0], maxChars, overlap);
    if |rest| == 0 {
      assert PackAll(next, rest, maxChars, overlap) == next;
      PackEndsWithSentence(st, sentences[0], maxChars, overlap);
    } else {
      PackAllEndsWithLast(next, rest, maxChars, overlap);
    }
  }

  /** One packing step leaves the current text ending with a space and the sentence. */
  lemma PackEndsWithSentence(st: Packer, sentence: string, maxChars: int, overlap: int)
    ensures EndsWithSentence(PackSentence(st, sentence, maxChars, overlap).current, sentence)
  {
    var next := PackSentence(st, sentence, maxChars, overlap);
    var prefix := if |st.current| + |sentence| <= maxChars then st.current else PyTail(st.current, overlap);
    assert next.current == prefix + " " + sentence;
    SpacedSuffix(prefix, sentence);
  }

  /** Any text followed by a space and a sentence ends with that sentence. */
  lemma SpacedSuffix(prefix: string, sentence: string)
    ensures EndsWithSentence(prefix + " " + sentence, sentence)
  {
    var cur := prefix + " " + sentence;
    assert cur[|cur| - |sentence| - 1..] == " " + sentence;
  }

  /** The trailing chunk is always emitted: with at least one sentence the final current
      text is non-empty, so the result is the closed chunks followed by the stripped
      final text. */
  lemma TrailingChunkEmitted(sentences: seq<string>, maxChars: int, overlap: int)
    requires |sentences| > 0
    ensures PackAll(Packer([], ""), sentences, maxChars, overlap).current != ""
    ensures ChunkSentences(sentences, maxChars, overlap)
      == PackAll(Packer([], ""), sentences, maxChars, overlap).chunks
         + [Strip(PackAll(Packer([], ""), sentences, maxChars, overlap).current)]
  {
    PackAllEndsWithLast(Packer([], ""), sentences, maxChars, overlap);
  }

  /** Text split from an empty string is one empty sentence, which still yields one (empty)
      chunk. */
  lemma EmptyTextGivesOneEmptyChunk(maxChars: int, overlap: int)
    requires maxChars >= 0
    ensures ChunkText("", maxChars, overlap) == [""]
  {
    assert SplitSentences("") == [""];
    var st := PackSentence(Packer([], ""), "", maxChars, overlap);
    assert st == Packer([], " ");
    assert PackAll(Packer([], ""), [""], maxChars, overlap) == PackAll(st, [], maxChars, overlap) == st;
    assert Strip(" ") == "";
  }

  /** With a positive overlap, no chunk is longer than `maxChars + 1` or than the
      overlap, a space and the longest sentence: the budget is a soft bound. */
  lemma {:induction false} PackBound(st: Packer, sentences: seq<string>, maxChars: int, overlap: int, longest: nat)
    requires overlap > 0
    requires forall i | 0 <= i < |sentences| :: |sentences[i]| <= longest
    requires |st.current| <= Max(maxChars + 1, overlap + 1 + longest)
    requires forall i | 0 <= i < |st.chunks| :: |st.chunks[i]| <= Max(maxChars + 1, overlap + 1 + longest)
    ensures var r := PackAll(st, sentences, maxChars, overlap);
      && |r.current| <= Max(maxChars + 1, overlap + 1 + longest)
      && forall i | 0 <= i < |r.chunks| :: |r.chunks[i]| <= Max(maxChars + 1, overlap + 1 + longest)
    decreases |sentences|
  {
    if |sentences| > 0 {
      var next := PackSentence(st, sentences[0], maxChars, overlap);
      assert |sentences[0]| <= longest;
      PackBound(next, sentences[1..], maxChars, overlap, longest);
    }
  }

  /** Every chunk of `chunk_text` with a positive overlap is bounded by the larger of
      `maxChars + 1` and `overlap + 1 + longest sentence`. */
  lemma ChunkLengthBound(sentences: seq<string>, maxChars: int, overlap: int, longest: nat)
    requires overlap > 0
    requires forall i | 0 <= i < |sentences| :: |sentences[i]| <= longest
    ensures forall c | c in ChunkSentences(sentences, maxChars, overlap) ::
      |c| <= Max(maxChars + 1, overlap + 1 + longest)
  {
    PackBound(Packer([], ""), sentences, maxChars, overlap, longest);
  }

  /** A single sentence longer than the budget produces an empty first chunk and then
      the sentence itself, which exceeds `maxChars`: the budget does not bound chunks. */
  lemma LongFirstSentence(sentence: string, maxChars: int, overlap: int)
    requires |sentence| > maxChars && |sentence| > 0
    requires !IsSpace(sentence[0]) && !IsSpace(sentence[|sentence| - 1])
    ensures ChunkSentences([sentence], maxChars, overlap) == ["", sentence]
    ensures |ChunkSentences([sentence], maxChars, overlap)[1]| > maxChars
  {
    ChunkLongFirst(sentence, maxChars, overlap);
    StripPadded(sentence);
  }

  /** The chunks of one sentence longer than the budget, before stripping. */
  lemma ChunkLongFirst(sentence: string, maxChars: int, overlap: int)
    requires |sentence| > maxChars
    ensures ChunkSentences([sentence], maxChars, overlap) == ["", Strip(" " + sentence)]
  {
    PackLongFirst(sentence, maxChars, overlap);
  }

  /** Packing one sentence longer than the budget closes the empty initial chunk. */
  lemma PackLongFirst(sentence: string, maxChars: int, overlap: int)
    requires |sentence| > maxChars
    ensures PackAll(Packer([], ""), [sentence], maxChars, overlap) == Packer([""], " " + sentence)
  {
    var st := PackSentence(Packer([], ""), sentence, maxChars, overlap);
    assert Strip("") == "";
    assert PyTail("", overlap) == "";
    assert st == Packer([""], " " + sentence);
    assert PackAll(Packer([], ""), [sentence], maxChars, overlap) == PackAll(st, [], maxChars, overlap);
  }

  /** A space followed by a sentence with no surrounding whitespace strips to the sentence. */
  lemma StripPadded(sentence: string)
    requires |sentence| > 0
    requires !IsSpace(sentence[0]) && !IsSpace(sentence[|sentence| - 1])
    ensures Strip(" " + sentence) == sentence
  {
    var cur := " " + sentence;
    assert cur[1..] == sentence;
    assert LeadingSpace(cur) == 1;
    assert TrailingSpace(cur[1..]) == 0;
    assert cur[1..|cur|] == sentence;
  }
}
