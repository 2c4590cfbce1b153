/** `clean_text` of `scrapers-ai/scrape_content.py`: newlines become spaces, the text is
    split on runs of whitespace (Python's `str.split()` with no argument) and the words are
    joined with single spaces. */
module CleanText {
  import opened Seqs
  import opened Text

  /** A word of `str.split()`: non-empty and free of whitespace. */
  predicate IsWord(w: string) {
    |w| > 0 && forall i | 0 <= i < |w| :: !IsSpace(w[i])
  }

  /** Length of the longest whitespace-free prefix. */
  function WordLen(s: string): (n: nat)
    ensures n <= |s|
    ensures forall i | 0 <= i < n :: !IsSpace(s[i])
    ensures n < |s| ==> IsSpace(s[n])
  {
    if |s| == 0 || IsSpace(s[0]) then 0 else 1 + WordLen(s[1..])
  }

  /** Python's `s.split()`: the maximal whitespace-free runs, in order. */
  function Words(s: string): (r: seq<string>)
    ensures forall i | 0 <= i < |r| :: IsWord(r[i])
    decreases |s|
  {
    if |s| == 0 then []
    else if IsSpace(s[0]) then Words(s[1..])
    else [s[..WordLen(s)]] + Words(s[WordLen(s)..])
  }

  /** `s.replace("\n", " ")`. */
  function ReplaceNewlines(s: string): string {
    seq(|s|, i requires 0 <= i < |s| => if s[i] == '\n' then ' ' else s[i])
  }

  /** `clean_text(s)`. */
  function Clean(s: string): string {
    Join(Words(ReplaceNewlines(s)), " ")
  }

  /** The characters of `s` that are not whitespace, in order. */
  function DropWhitespace(s: string): string {
    if |s| == 0 then [] else (if IsSpace(s[0]) then [] else [s[0]]) + DropWhitespace(s[1..])
  }

  // ----- Words -----

  /** A word followed by whitespace (or nothing) is split off as the first word. */
  lemma {:induction false} WordsCons(w: string, t: string)
    requires IsWord(w)
    requires |t| == 0 || IsSpace(t[0])
    ensures Words(w + t) == [w] + Words(t)
  {
    WordLenOfWord(w, t);
    assert (w + t)[..|w|] == w;
    assert (w + t)[|w|..] == t;
  }

  lemma {:induction false} WordLenOfWord(w: string, t: string)
    requires forall i | 0 <= i < |w| :: !IsSpace(w[i])
    requires |t| == 0 || IsSpace(t[0])
    ensures WordLen(w + t) == |w|
  {
    if |w| > 0 {
      assert (w + t)[1..] == w[1..] + t;
      WordLenOfWord(w[1..], t);
    } else {
      assert w + t == t;
    }
  }

  /** Splitting single-space-joined words gives the words back. */
  lemma {:induction false} WordsOfJoin(ws: seq<string>)
    requires forall i | 0 <= i < |ws| :: IsWord(ws[i])
    ensures Words(Join(ws, " ")) == ws
  {
    if |ws| == 1 {
      WordsCons(ws[0], "");
      assert ws[0] + "" == ws[0];
    } else if |ws| > 1 {
      var rest := Join(ws[1..], " ");
      WordsOfJoin(ws[1..]);
      assert ws[0] + " " + rest == ws[0] + (" " + rest);
      WordsCons(ws[0], " " + rest);
      assert (" " + rest)[1..] == rest;
    }
  }

  /** The word length is determined by the three facts `WordLen` ensures. */
  lemma WordLenUnique(s: string, n: nat)
    requires n <= |s|
    requires forall i | 0 <= i < n :: !IsSpace(s[i])
    requires n < |s| ==> IsSpace(s[n])
    ensures WordLen(s) == n
  {
  }

  /** Newlines are whitespace already, so replacing them does not change the words. */
  lemma {:induction false} WordsIgnoreNewlines(s: string)
    ensures Words(ReplaceNewlines(s)) == Words(s)
    decreases |s|
  {
    if |s| > 0 {
      var t := ReplaceNewlines(s);
      if IsSpace(s[0]) {
        assert t[1..] == ReplaceNewlines(s[1..]);
        WordsIgnoreNewlines(s[1..]);
      } else {
        var n := WordLen(s);
        WordLenUnique(t, n);
        assert t[..n] == s[..n];
        assert t[n..] == ReplaceNewlines(s[n..]);
        WordsIgnoreNewlines(s[n..]);
      }
    }
  }

  // ----- Shape of the cleaned text -----

  /** The only whitespace character in `s` is the plain space, it never starts or ends
      `s`, and it never occurs twice in a row. */
  predicate Normalized(s: string) {
    && (forall i | 0 <= i < |s| :: IsSpace(s[i]) ==> s[i] == ' ')
    && (|s| > 0 ==> !IsSpace(s[0]) && !IsSpace(s[|s| - 1]))
    && (forall i | 0 <= i < |s| - 1 :: !(s[i] == ' ' && s[i + 1] == ' '))
  }

  /** Joining words with single spaces gives normalized text. */
  lemma {:induction false} JoinWordsNormalized(ws: seq<string>)
    requires forall i | 0 <= i < |ws| :: IsWord(ws[i])
    ensures Normalized(Join(ws, " "))
  {
    if |ws| > 1 {
      var w, rest := ws[0], Join(ws[1..], " ");
      JoinWordsNormalized(ws[1..]);
      var r := w + " " + rest;
      assert |rest| > 0 by {
        JoinFirstWord(ws[1..]);
      }
      forall i | 0 <= i < |r| - 1
        ensures !(r[i] == ' ' && r[i + 1] == ' ')
      {
        if i >= |w| + 1 {
          assert r[i] == rest[i - |w| - 1] && r[i + 1] == rest[i - |w|];
        } else if i == |w| {
          assert r[i + 1] == rest[0];
        }
      }
      forall i | 0 <= i < |r| && IsSpace(r[i])
        ensures r[i] == ' '
      {
        if i > |w| {
          assert r[i] == rest[i - |w| - 1];
        }
      }
      assert r[|r| - 1] == rest[|rest| - 1];
    }
  }

  /** A join of words starts with the first word. */
  lemma {:induction false} JoinFirstWord(ws: seq<string>)
    requires |ws| > 0 && IsWord(ws[0])
    ensures |Join(ws, " ")| >= |ws[0]| && Join(ws, " ")[..|ws[0]|] == ws[0]
  {
  }

  /** `clean_text` leaves no newline, no leading or trailing whitespace, no whitespace
      other than single spaces between words, and keeps the words of its input. */
  lemma CleanShape(s: string)
    ensures Normalized(Clean(s))
    ensures forall i | 0 <= i < |Clean(s)| :: Clean(s)[i] != '\n'
    ensures Words(Clean(s)) == Words(s)
  {
    var ws := Words(ReplaceNewlines(s));
    JoinWordsNormalized(ws);
    WordsOfJoin(ws);
    WordsIgnoreNewlines(s);
  }

  // ----- Non-whitespace characters are kept -----

  lemma {:induction false} DropWhitespaceAppend(a: string, b: string)
    ensures DropWhitespace(a + b) == DropWhitespace(a) + DropWhitespace(b)
  {
    if |a| > 0 {
      assert (a + b)[1..] == a[1..] + b;
      DropWhitespaceAppend(a[1..], b);
    } else {
      assert a + b == b;
    }
  }

  lemma {:induction false} DropWhitespaceOfWord(w: string)
    requires forall i | 0 <= i < |w| :: !IsSpace(w[i])
    ensures DropWhitespace(w) == w
  {
    if |w| > 0 {
      DropWhitespaceOfWord(w[1..]);
    }
  }

  /** The words of `s` concatenate to its non-whitespace characters. */
  lemma {:induction false} WordsKeepText(s: string)
    ensures Flatten(Words(s)) == DropWhitespace(s)
    decreases |s|
  {
    if |s| > 0 && !IsSpace(s[0]) {
      var n := WordLen(s);
      WordsKeepText(s[n..]);
      assert s == s[..n] + s[n..];
      DropWhitespaceAppend(s[..n], s[n..]);
      DropWhitespaceOfWord(s[..n]);
    } else if |s| > 0 {
      WordsKeepText(s[1..]);
    }
  }

  /** Joining words with spaces only adds whitespace. */
  lemma {:induction false} JoinKeepsText(ws: seq<string>)
    requires forall i | 0 <= i < |ws| :: IsWord(ws[i])
    ensures DropWhitespace(Join(ws, " ")) == Flatten(ws)
  {
    if |ws| == 1 {
      DropWhitespaceOfWord(ws[0]);
      assert Flatten(ws) == ws[0] + Flatten(ws[1..]);
    } else if |ws| > 1 {
      JoinKeepsText(ws[1..]);
      var rest := Join(ws[1..], " ");
      assert ws[0] + " " + rest == ws[0] + (" " + rest);
      DropWhitespaceAppend(ws[0], " " + rest);
      DropWhitespaceOfWord(ws[0]);
      assert (" " + rest)[1..] == rest;
    }
  }

  /** Deleting whitespace from the input and from the output gives the same string. */
  lemma CleanKeepsText(s: string)
    ensures DropWhitespace(Clean(s)) == DropWhitespace(s)
  {
    var ws := Words(ReplaceNewlines(s));
    JoinKeepsText(ws);
    WordsIgnoreNewlines(s);
    WordsKeepText(s);
  }

  /** Cleaning twice is cleaning once. */
  lemma CleanIdempotent(s: string)
    ensures Clean(Clean(s)) == Clean(s)
  {
    CleanShape(s);
    WordsIgnoreNewlines(s);
    WordsIgnoreNewlines(Clean(s));
  }
}
