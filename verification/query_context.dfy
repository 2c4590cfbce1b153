/** Context and prompt assembly of `get_answer.py`: `get_top_text` reads the `text` and
    `recipe` metadata of the first `k` ranked matches and joins them with a separator;
    `generate_response` fills the fixed prompt template with the context and question.
    Embedding, vector search and the completion call are left out. */
module QueryContext {
  import opened Wrappers
  import opened Seqs
  import opened Text

  /** The two metadata fields `get_top_text` reads from a match; `None` when the field is
      missing or is not a string. */
  datatype Match = Match(text: Option<string>, recipe: Option<string>)

  /** The exceptions `get_top_text` can raise: a match index past the end of the results,
      or a non-string piece handed to `str.join`. */
  datatype TopTextError = IndexError | TypeError

  /** The separator between pieces. */
  const Separator := "\n---\n"

  /** How many matches the script retrieves and reads. */
  const TopK := 5

  /** Piece `i` of the context: the `text` of match `i / 2` for even `i`, its `recipe` for
      odd `i`. */
  function Piece(ms: seq<Match>, i: nat): Option<string>
    requires i < 2 * |ms|
  {
    if i % 2 == 0 then ms[i / 2].text else ms[i / 2].recipe
  }

  /** The first `n` pieces are all strings. */
  predicate PiecesPresent(ms: seq<Match>, n: nat)
    requires n <= 2 * |ms|
  {
    forall i | 0 <= i < n :: Piece(ms, i).Some?
  }

  /** The values of the first `n` pieces. */
  function PieceValues(ms: seq<Match>, n: nat): (r: seq<string>)
    requires n <= 2 * |ms| && PiecesPresent(ms, n)
    ensures |r| == n
  {
    seq(n, i requires 0 <= i < n => Piece(ms, i).value)
  }

  /** What `get_top_text(ms, k)` returns or raises, stated piece by piece: a negative or
      zero `k` reads nothing; more matches than there are raises `IndexError`; a missing
      field among the `2k` pieces raises `TypeError`; otherwise the pieces in order, joined
      with the separator. */
  function TopText(ms: seq<Match>, k: int): Result<string, TopTextError> {
    if k <= 0 then Success("")
    else if k > |ms| then Failure(IndexError)
    else if !PiecesPresent(ms, 2 * k) then Failure(TypeError)
    else Success(Join(PieceValues(ms, 2 * k), Separator))
  }

  /** `get_top_text(vectors, k)`: the loop appends each match's `text` then `recipe`
      (running off the end raises), then `str.join` rejects a non-string piece. */
  method GetTopText(ms: seq<Match>, k: int) returns (r: Result<string, TopTextError>)
    ensures r == TopText(ms, k)
  {
    var topTexts: seq<Option<string>> := [];
    var i := 0;
    while i < k
      invariant 0 <= i <= |ms|
      invariant i == 0 || i <= k
      invariant |topTexts| == 2 * i
      invariant forall j | 0 <= j < 2 * i :: topTexts[j] == Piece(ms, j)
    {
      if i >= |ms| {
        return Failure(IndexError);
      }
      topTexts := topTexts + [ms[i].text, ms[i].recipe];
      i := i + 1;
    }
    var n := |topTexts|;
    assert n > 0 ==> k > 0 && i == k;
    var pieces: seq<string> := [];
    for j := 0 to n
      invariant n == 2 * i && (n > 0 ==> k > 0 && i == k)
      invariant |pieces| == j
      invariant forall m | 0 <= m < j :: topTexts[m].Some? && pieces[m] == topTexts[m].value
    {
      if topTexts[j].None? {
        assert !PiecesPresent(ms, 2 * k) by {
          assert Piece(ms, j).None?;
        }
        return Failure(TypeError);
      }
      pieces := pieces + [topTexts[j].value];
    }
    if k > 0 {
      assert pieces == PieceValues(ms, 2 * k);
    }
    return Success(Join(pieces, Separator));
  }

  /** The script reads five matches: with fewer than five results it raises instead of
      producing any context, and with no results at all likewise. */
  lemma FewerThanFiveRaises(ms: seq<Match>)
    requires |ms| < TopK
    ensures TopText(ms, TopK) == Failure(IndexError)
  {
  }

  /** Reading one more match extends the context: the previous context, a separator, the
      new match's text, a separator and its recipe. */
  lemma {:induction false} TopTextExtends(ms: seq<Match>, k: nat)
    requires 0 < k < |ms| && PiecesPresent(ms, 2 * k + 2)
    ensures TopText(ms, k).Success? && TopText(ms, k + 1).Success?
    ensures ms[k].text.Some? && ms[k].recipe.Some?
    ensures TopText(ms, k + 1).value
         == TopText(ms, k).value + Separator + ms[k].text.value + Separator + ms[k].recipe.value
  {
    var before := PieceValues(ms, 2 * k);
    var after := PieceValues(ms, 2 * k + 2);
    assert PiecesPresent(ms, 2 * k);
    assert Piece(ms, 2 * k) == ms[k].text;
    assert Piece(ms, 2 * k + 1) == ms[k].recipe;
    assert Piece(ms, 2 * k).Some? && Piece(ms, 2 * k + 1).Some?;
    assert after == before + [ms[k].text.value, ms[k].recipe.value];
    JoinAppend(before, [ms[k].text.value, ms[k].recipe.value], Separator);
  }

  /** One match whose fields are present gives its text and recipe around one separator. */
  lemma OneMatch(ms: seq<Match>, t: string, rcp: string)
    requires |ms| >= 1 && ms[0] == Match(Some(t), Some(rcp))
    ensures TopText(ms, 1) == Success(t + Separator + rcp)
  {
    assert Piece(ms, 0) == Some(t) && Piece(ms, 1) == Some(rcp);
    assert PiecesPresent(ms, 2);
    assert PieceValues(ms, 2) == [t, rcp];
    assert [t, rcp][1..] == [rcp];
    assert Join([t, rcp], Separator) == t + Separator + rcp;
  }

  /** A missing field anywhere among the read matches makes the join raise, even when the
      other pieces are present. */
  lemma MissingFieldRaises(ms: seq<Match>, k: int, m: nat)
    requires 0 < k <= |ms| && m < k
    requires ms[m].text.None? || ms[m].recipe.None?
    ensures TopText(ms, k) == Failure(TypeError)
  {
    if ms[m].text.None? {
      assert Piece(ms, 2 * m).None?;
    } else {
      assert Piece(ms, 2 * m + 1).None?;
    }
  }

  // ----- The prompt -----

  /** A format string: literal text and named replacement fields. */
  datatype Segment = Lit(text: string) | Field(name: string)

  /** Python's `str.format` with keyword arguments: literal text is copied, each field is
      replaced by its argument verbatim; a field with no argument raises `KeyError`,
      reported with the field's name. */
  function Format(template: seq<Segment>, args: map<string, string>): (r: Result<string, string>)
    ensures r.Failure? <==> exists i | 0 <= i < |template| :: template[i].Field? && template[i].name !in args
  {
    if |template| == 0 then Success("")
    else
      var rest := Format(template[1..], args);
      assert forall i | 1 <= i < |template| :: template[i] == template[1..][i - 1];
      match template[0]
      case Lit(t) => if rest.Failure? then rest else Success(t + rest.value)
      case Field(name) =>
        if name !in args then Failure(name)
        else if rest.Failure? then rest
        else Success(args[name] + rest.value)
  }

  /** The literal text between `{context}` and `{question}`. */
  const TemplateMiddle: string := "\n\n---\n\n**QUESTION:**\n"

  /** The literal text after `{question}`. */
  const TemplateTail: string := "\n\n---\n\n**ANSWER:**\n"

  /** `prompt_template` as a format string. `head` is its fixed instruction text before
      `{context}` (the role, the seven rules and the `**CONTEXT:**` heading), which holds
      no brace. */
  function PromptTemplate(head: string): seq<Segment> {
    [Lit(head), Field("context"), Lit(TemplateMiddle), Field("question"), Lit(TemplateTail)]
  }

  /** `prompt_template.format(context=context, question=query)`. */
  function Prompt(head: string, context: string, question: string): Result<string, string> {
    Format(PromptTemplate(head), map["context" := context, "question" := question])
  }

  /** A template of literal text, a field, literal text, a field and literal text,
      filled with arguments for both fields. */
  lemma FormatFive(h: string, x: string, m: string, y: string, tl: string, args: map<string, string>)
    requires x in args && y in args
    ensures Format([Lit(h), Field(x), Lit(m), Field(y), Lit(tl)], args)
         == Success(h + args[x] + m + args[y] + tl)
  {
    var t := [Lit(h), Field(x), Lit(m), Field(y), Lit(tl)];
    assert t[4..][1..] == [] && t[3..][1..] == t[4..] && t[2..][1..] == t[3..] && t[1..][1..] == t[2..];
    assert tl + "" == tl;
    assert Format(t[4..], args) == Success(tl);
    assert Format(t[3..], args) == Success(args[y] + tl);
    assert Format(t[2..], args) == Success(m + (args[y] + tl));
    assert Format(t[1..], args) == Success(args[x] + (m + (args[y] + tl)));
    assert h + (args[x] + (m + (args[y] + tl))) == h + args[x] + m + args[y] + tl;
  }

  /** The pieces of a five-part concatenation sit at their offsets. */
  lemma ConcatSlices(h: string, c: string, m: string, q: string, tl: string)
    ensures var p := h + c + m + q + tl;
      && p[|h|..|h| + |c|] == c
      && p[|h| + |c| + |m|..|p| - |tl|] == q
  {
  }

  /** The prompt is the template's literal text with the context and the question
      inserted verbatim at their places, whatever characters (braces included) they hold. */
  lemma PromptShape(head: string, context: string, question: string)
    ensures Prompt(head, context, question).Success?
    ensures Prompt(head, context, question).value
         == head + context + TemplateMiddle + question + TemplateTail
    ensures var p := Prompt(head, context, question).value;
      && p[|head|..|head| + |context|] == context
      && p[|head| + |context| + |TemplateMiddle|..|p| - |TemplateTail|] == question
  {
    FormatFive(head, "context", TemplateMiddle, "question", TemplateTail,
               map["context" := context, "question" := question]);
    ConcatSlices(head, context, TemplateMiddle, question, TemplateTail);
  }

  /** Prompts for contexts of the same length are equal only for the same context and the
      same question: nothing of either is lost. */
  lemma PromptInjective(head: string, c1: string, q1: string, c2: string, q2: string)
    requires |c1| == |c2|
    requires Prompt(head, c1, q1) == Prompt(head, c2, q2)
    ensures c1 == c2 && q1 == q2
  {
    PromptShape(head, c1, q1);
    PromptShape(head, c2, q2);
  }

  /** A field the arguments do not name raises `KeyError` with that name. */
  lemma MissingArgumentRaises(head: string, context: string)
    ensures Format(PromptTemplate(head), map["context" := context]) == Failure("question")
  {
    var args := map["context" := context];
    var t := PromptTemplate(head);
    assert t[3..][1..] == t[4..] && t[2..][1..] == t[3..] && t[1..][1..] == t[2..];
    assert Format(t[3..], args) == Failure("question");
    assert Format(t[2..], args) == Failure("question");
    assert Format(t[1..], args) == Failure("question");
  }
}
