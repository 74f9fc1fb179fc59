/** The answer sanitiser shared by the three `get_spoken_answer`s
    (engines.py:102-106, __init__.py:30-33, prompts.py:58-60): strip the
    reply and reject an empty, all-`?` or all-`_` one; in history mode cut
    the reply at the first hallucinated `Human: ` or `AI: ` turn first. */
module Sanitizer {
  import opened Wrappers
  import opened Text

  const QuestionMarks := Just('?')
  const Underscores := Just('_')

  /** The rejection test `not answer or not answer.strip("?") or not answer.strip("_")`. */
  predicate IsDegenerate(answer: string) {
    answer == [] || Strip(answer, QuestionMarks) == [] || Strip(answer, Underscores) == []
  }

  /** The rejection test means: empty, only question marks, or only underscores.
      A mix such as `?_` is not degenerate. */
  lemma DegenerateIff(answer: string)
    ensures IsDegenerate(answer) <==>
      answer == [] || AllOf(answer, QuestionMarks) || AllOf(answer, Underscores)
  {
    StripEmptyIff(answer, QuestionMarks);
    StripEmptyIff(answer, Underscores);
  }

  /** Keeps a candidate answer unless it is degenerate (`None` for "no answer"). */
  function Accept(answer: string): (r: Option<string>)
    ensures r.None? <==>
      answer == [] || AllOf(answer, QuestionMarks) || AllOf(answer, Underscores)
    ensures r.Some? ==> r.value == answer
  {
    DegenerateIff(answer);
    if IsDegenerate(answer) then None else Some(answer)
  }

  /** Persona-mode and plain sanitising: `response.strip()`, then the test. */
  function Sanitize(response: string): Option<string> {
    Accept(Strip(response, Whitespace))
  }

  const HumanMarker := "Human: "
  const AiMarker := "AI: "

  /** History mode: `response.split("Human: ")[0].split("AI: ")[0].strip()`. */
  function Truncate(response: string): string {
    Strip(BeforeFirst(BeforeFirst(response, HumanMarker), AiMarker), Whitespace)
  }

  /** History-mode sanitising: truncate, then the same test. */
  function HistorySanitize(response: string): Option<string> {
    Accept(Truncate(response))
  }

  /** What a stored or returned answer looks like: non-empty, no surrounding
      whitespace, not made only of `?` or only of `_`, and free of both turn
      markers. */
  predicate IsCleanAnswer(a: string) {
    && a != []
    && !IsSpace(a[0]) && !IsSpace(a[|a| - 1])
    && !AllOf(a, QuestionMarks) && !AllOf(a, Underscores)
    && !Contains(a, HumanMarker) && !Contains(a, AiMarker)
  }

  /** `Sanitize` rejects exactly the replies whose stripped text is empty,
      all `?` or all `_`, and otherwise returns the stripped text, which has
      no whitespace at either end. */
  lemma SanitizeSpec(response: string)
    ensures var a := Strip(response, Whitespace);
      && (Sanitize(response).None? <==> a == [] || AllOf(a, QuestionMarks) || AllOf(a, Underscores))
      && (Sanitize(response).Some? ==>
            Sanitize(response).value == a && !IsSpace(a[0]) && !IsSpace(a[|a| - 1]))
  {
    StripEdges(response, Whitespace);
  }

  /** An accepted answer is a contiguous piece of the reply. */
  lemma SanitizedIsPieceOfResponse(response: string)
    requires Sanitize(response).Some?
    ensures var k, a := StripOffset(response, Whitespace), Sanitize(response).value;
      k + |a| <= |response| && a == response[k..k + |a|]
  {
    StripIsSlice(response, Whitespace);
  }

  /** Sanitising an accepted answer again gives it back unchanged. */
  lemma SanitizeIdempotent(response: string)
    requires Sanitize(response).Some?
    ensures Sanitize(Sanitize(response).value) == Sanitize(response)
  {
    StripIdempotent(response, Whitespace);
  }

  /** Cutting at both markers leaves neither marker. */
  lemma CutHasNoMarkers(response: string)
    ensures var b := BeforeFirst(BeforeFirst(response, HumanMarker), AiMarker);
      !Contains(b, HumanMarker) && !Contains(b, AiMarker)
  {
    var b1 := BeforeFirst(response, HumanMarker);
    var b2 := BeforeFirst(b1, AiMarker);
    BeforeFirstHasNoSep(response, HumanMarker);
    BeforeFirstHasNoSep(b1, AiMarker);
    assert b2 == b1[..|b2|];
    AbsentFromSlice(b1, 0, |b2|, HumanMarker);
  }

  /** The truncated reply holds neither marker and has no surrounding whitespace. */
  lemma TruncateClean(response: string)
    ensures !Contains(Truncate(response), HumanMarker)
    ensures !Contains(Truncate(response), AiMarker)
    ensures Truncate(response) != [] ==>
      !IsSpace(Truncate(response)[0]) && !IsSpace(Truncate(response)[|Truncate(response)| - 1])
  {
    var b2 := BeforeFirst(BeforeFirst(response, HumanMarker), AiMarker);
    CutHasNoMarkers(response);
    StripKeepsAbsent(b2, Whitespace, HumanMarker);
    StripKeepsAbsent(b2, Whitespace, AiMarker);
    StripEdges(b2, Whitespace);
  }

  /** Every answer history mode accepts is clean. */
  lemma HistoryAnswerClean(response: string)
    requires HistorySanitize(response).Some?
    ensures IsCleanAnswer(HistorySanitize(response).value)
  {
    TruncateClean(response);
  }

  /** A reply without either marker is sanitised the same way in both modes. */
  lemma NoMarkerSameAsPlain(response: string)
    requires !Contains(response, HumanMarker) && !Contains(response, AiMarker)
    ensures HistorySanitize(response) == Sanitize(response)
  {
    BeforeFirstAbsent(response, HumanMarker);
    BeforeFirstAbsent(response, AiMarker);
  }

  /** Empty and filler-only replies are rejected. */
  lemma SanitizeRejectsExamples()
    ensures Sanitize("") == None
    ensures Sanitize("???") == None
    ensures Sanitize("___") == None
  {
    assert Strip("???", QuestionMarks) == [];
    assert Strip("___", Underscores) == [];
  }

  /** Surrounding whitespace is dropped from an accepted answer. */
  lemma SanitizeStripsExample()
    ensures Sanitize("  Paris  ") == Some("Paris")
  {
    assert TrimStart("  Paris  ", Whitespace) == "Paris  ";
    assert TrimEnd("Paris  ", Whitespace) == "Paris";
  }

  /** A mix of the two filler characters is not degenerate. */
  lemma SanitizeKeepsMixedExample()
    ensures Sanitize(" ?_ ") == Some("?_")
  {
    assert TrimStart(" ?_ ", Whitespace) == "?_ ";
    assert TrimEnd("?_ ", Whitespace) == "?_";
    assert "?_"[1] == '_' && "?_"[0] == '?';
  }

  /** The first line of a reply whose next line opens a `Human: ` turn is
      all that survives the cut at `Human: `. */
  lemma CutAtNextTurn(answer: string, rest: string)
    requires !Contains(answer, HumanMarker)
    ensures BeforeFirst(answer + "\n" + HumanMarker + rest, HumanMarker) == answer + "\n"
  {
    var line := answer + "\n";
    var r := line + HumanMarker + rest;
    assert r == answer + ['\n'] + (HumanMarker + rest);
    NoOccurrenceAcross(answer, '\n', HumanMarker + rest, HumanMarker);
    assert r[|line|..] == HumanMarker + rest;
    BeforeFirstAt(r, HumanMarker, |line|);
    assert r[..|line|] == line;
  }

  /** Stripping a line break off a text with no surrounding whitespace. */
  lemma StripLineBreak(answer: string)
    requires answer != [] && !IsSpace(answer[0]) && !IsSpace(answer[|answer| - 1])
    ensures Strip(answer + "\n", Whitespace) == answer
  {
    var line := answer + "\n";
    assert TrimStart(line, Whitespace) == line;
    assert line[..|line| - 1] == answer;
    assert TrimEnd(answer, Whitespace) == answer;
  }

  /** History mode keeps a clean first line and drops a hallucinated next
      turn that starts on the following line. */
  lemma HistoryDropsNextTurn(answer: string, rest: string)
    requires IsCleanAnswer(answer)
    ensures HistorySanitize(answer + "\n" + HumanMarker + rest) == Some(answer)
  {
    CutAtNextTurn(answer, rest);
    AbsentAfterAppend(answer, '\n', AiMarker);
    BeforeFirstAbsent(answer + "\n", AiMarker);
    StripLineBreak(answer);
  }
}
