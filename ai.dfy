/**
 * Post-processing of the model's answer (`process_api_response_candidates`
 * in src/ai/mod.rs). The candidates of a response hold optional contents,
 * which hold optional parts, which hold optional text. Every text is
 * trimmed, loses one surrounding Markdown code fence, and is split into
 * lines; every trimmed line that is neither empty nor a bare fence "```"
 * is a suggestion. The suggestions keep the order of the response and are
 * cut to the requested count; none at all is an error.
 */
module Ai {
  import opened Wrappers
  import opened Text

  /** The optional fields of a response, as the JSON decoder fills them. */
  datatype ModelPart = ModelPart(text: Option<string>)
  datatype ModelContent = ModelContent(parts: Option<seq<ModelPart>>)
  datatype Candidate = Candidate(content: Option<ModelContent>)

  const Fence: string := "```"
  const NoSuggestionsMessage: string := "No suggestions derived from API candidates after processing."

  // ---------------------------------------------------------------------------
  // Fence stripping
  // ---------------------------------------------------------------------------

  /** Rust `s.strip_prefix(p).unwrap_or(fallback)`. */
  function StripPrefixOr(s: string, prefix: string, fallback: string): string {
    if StartsWith(s, prefix) then s[|prefix|..] else fallback
  }

  /** Rust `s.strip_suffix(p).unwrap_or(fallback)`. */
  function StripSuffixOr(s: string, suffix: string, fallback: string): string {
    if EndsWith(s, suffix) then s[..|s| - |suffix|] else fallback
  }

  /**
   * The text without one surrounding fence: "```\n…\n```" is tried first, then
   * "```…```". When the suffix overlaps the prefix (as in "```\n```" or "````"),
   * stripping the suffix fails and the text before any stripping is kept.
   */
  function StripFences(t: string): string {
    if StartsWith(t, "```\n") && EndsWith(t, "\n```") then
      Trim(StripSuffixOr(StripPrefixOr(t, "```\n", t), "\n```", t))
    else if StartsWith(t, Fence) && EndsWith(t, Fence) then
      Trim(StripSuffixOr(StripPrefixOr(t, Fence, t), Fence, t))
    else t
  }

  // ---------------------------------------------------------------------------
  // Suggestions, as a function of the response
  // ---------------------------------------------------------------------------

  /** A trimmed line that is kept. */
  predicate IsSuggestion(trimmedLine: string) {
    trimmedLine != "" && trimmedLine != Fence
  }

  /** The suggestions among some lines, in order. */
  function KeptLines(lines: seq<string>): seq<string> {
    if |lines| == 0 then []
    else
      var last := Trim(lines[|lines| - 1]);
      KeptLines(lines[..|lines| - 1]) + (if IsSuggestion(last) then [last] else [])
  }

  /** The kept lines of a longer prefix: those of the shorter one, then the next line when it is kept. */
  lemma KeptLinesStep(lines: seq<string>, k: nat)
    requires k < |lines|
    ensures KeptLines(lines[..k + 1]) ==
      KeptLines(lines[..k]) + (if IsSuggestion(Trim(lines[k])) then [Trim(lines[k])] else [])
  {
    assert lines[..k + 1][..k] == lines[..k];
  }

  function TextSuggestions(text: string): seq<string> {
    KeptLines(Lines(StripFences(Trim(text))))
  }

  function PartSuggestions(part: ModelPart): seq<string> {
    match part.text
    case Some(text) => TextSuggestions(text)
    case None => []
  }

  function PartsSuggestions(parts: seq<ModelPart>): seq<string> {
    if |parts| == 0 then [] else PartsSuggestions(parts[..|parts| - 1]) + PartSuggestions(parts[|parts| - 1])
  }

  function CandidateSuggestions(candidate: Candidate): seq<string> {
    match candidate.content
    case Some(content) =>
      (match content.parts
       case Some(parts) => PartsSuggestions(parts)
       case None => [])
    case None => []
  }

  function CandidatesSuggestions(candidates: seq<Candidate>): seq<string> {
    if |candidates| == 0 then []
    else CandidatesSuggestions(candidates[..|candidates| - 1]) + CandidateSuggestions(candidates[|candidates| - 1])
  }

  /** Every suggestion the response holds, in order, before the cut. */
  function AllSuggestions(apiResponseCandidates: Option<seq<Candidate>>): seq<string> {
    match apiResponseCandidates
    case Some(candidates) => CandidatesSuggestions(candidates)
    case None => []
  }

  /** The result: the first `max` suggestions, or the error when that leaves none. */
  function ProcessedCandidates(apiResponseCandidates: Option<seq<Candidate>>, max: u32): Result<seq<string>, string> {
    var all := AllSuggestions(apiResponseCandidates);
    var kept := if |all| > max as int then all[..max] else all;
    if |kept| == 0 then Err(NoSuggestionsMessage) else Ok(kept)
  }

  /**
   * `process_api_response_candidates` as the source runs it: a loop over the
   * candidates pushing onto one list, then the cut and the empty check. The
   * loops over parts and over lines are the two methods below.
   */
  method ProcessApiResponseCandidates(apiResponseCandidates: Option<seq<Candidate>>, maxSuggestionsToReturn: u32)
    returns (r: Result<seq<string>, string>)
    ensures r == ProcessedCandidates(apiResponseCandidates, maxSuggestionsToReturn)
  {
    var suggestions: seq<string> := [];
    if apiResponseCandidates.Some? {
      var candidatesVec := apiResponseCandidates.value;
      for i := 0 to |candidatesVec|
        invariant suggestions == CandidatesSuggestions(candidatesVec[..i])
      {
        var candidate := candidatesVec[i];
        assert candidatesVec[..i + 1][..i] == candidatesVec[..i];
        if candidate.content.Some? && candidate.content.value.parts.Some? {
          suggestions := PushPartsSuggestions(suggestions, candidate.content.value.parts.value);
        }
      }
      assert candidatesVec[..|candidatesVec|] == candidatesVec;
    }
    if |suggestions| > maxSuggestionsToReturn as int {
      suggestions := suggestions[..maxSuggestionsToReturn];
    }
    if |suggestions| == 0 {
      return Err(NoSuggestionsMessage);
    }
    return Ok(suggestions);
  }

  /** The loop over the parts of one candidate's content. */
  method PushPartsSuggestions(suggestions: seq<string>, parts: seq<ModelPart>) returns (pushed: seq<string>)
    ensures pushed == suggestions + PartsSuggestions(parts)
  {
    pushed := suggestions;
    for j := 0 to |parts|
      invariant pushed == suggestions + PartsSuggestions(parts[..j])
    {
      var part := parts[j];
      assert parts[..j + 1][..j] == parts[..j];
      ConcatAssoc(suggestions, PartsSuggestions(parts[..j]), PartSuggestions(part));
      if part.text.Some? {
        pushed := PushTextSuggestions(pushed, part.text.value);
      }
    }
    assert parts[..|parts|] == parts;
  }

  /** The body of the loop over parts, for a part with text: trim, strip a fence, split, keep, push. */
  method PushTextSuggestions(suggestions: seq<string>, textBlock: string) returns (pushed: seq<string>)
    ensures pushed == suggestions + TextSuggestions(textBlock)
  {
    pushed := suggestions;
    var processedText := Trim(textBlock);
    if StartsWith(processedText, "```\n") && EndsWith(processedText, "\n```") {
      processedText := Trim(StripSuffixOr(StripPrefixOr(processedText, "```\n", processedText), "\n```", processedText));
    } else if StartsWith(processedText, Fence) && EndsWith(processedText, Fence) {
      processedText := Trim(StripSuffixOr(StripPrefixOr(processedText, Fence, processedText), Fence, processedText));
    }
    assert processedText == StripFences(Trim(textBlock));
    var lines := Lines(processedText);
    for k := 0 to |lines|
      invariant pushed == suggestions + KeptLines(lines[..k])
    {
      var trimmedLine := Trim(lines[k]);
      KeptLinesStep(lines, k);
      if trimmedLine != "" && trimmedLine != Fence {
        ConcatAssoc(suggestions, KeptLines(lines[..k]), [trimmedLine]);
        pushed := pushed + [trimmedLine];
      }
    }
    assert lines[..|lines|] == lines;
  }

  // ---------------------------------------------------------------------------
  // Properties
  // ---------------------------------------------------------------------------

  /** A suggestion as the caller sees it: one trimmed, non-empty line that is not a bare fence. */
  predicate IsCleanSuggestion(s: string) {
    s != "" && s != Fence && IsTrimmed(s) && '\n' !in s
  }

  /** The kept lines are exactly the trimmed lines that are neither empty nor a bare fence, in order. */
  lemma {:induction false} KeptLinesMembers(lines: seq<string>)
    ensures |KeptLines(lines)| <= |lines|
    ensures forall s :: s in KeptLines(lines) <==> exists k :: 0 <= k < |lines| && Trim(lines[k]) == s && IsSuggestion(s)
  {
    if |lines| > 0 {
      var init := lines[..|lines| - 1];
      KeptLinesMembers(init);
      forall s | s in KeptLines(lines)
        ensures exists k :: 0 <= k < |lines| && Trim(lines[k]) == s && IsSuggestion(s)
      {
        if s in KeptLines(init) {
          var k :| 0 <= k < |init| && Trim(init[k]) == s && IsSuggestion(s);
          assert lines[k] == init[k];
        } else {
          assert Trim(lines[|lines| - 1]) == s;
        }
      }
      forall s | exists k :: 0 <= k < |lines| && Trim(lines[k]) == s && IsSuggestion(s)
        ensures s in KeptLines(lines)
      {
        var k :| 0 <= k < |lines| && Trim(lines[k]) == s && IsSuggestion(s);
        if k < |lines| - 1 {
          assert init[k] == lines[k];
        }
      }
    }
  }

  /** Trimming a line without a '\n' gives a line without one, and a trimmed text. */
  lemma TrimLine(line: string)
    requires '\n' !in line
    ensures '\n' !in Trim(line) && IsTrimmed(Trim(line))
  {
    TrimSpec(line);
    var i, j :| 0 <= i <= j <= |line| && Trim(line) == line[i..j];
    assert forall c :: c in line[i..j] ==> c in line;
  }

  /** Every suggestion a text yields is clean. */
  lemma TextSuggestionsClean(text: string)
    ensures forall s :: s in TextSuggestions(text) ==> IsCleanSuggestion(s)
  {
    var lines := Lines(StripFences(Trim(text)));
    LinesHaveNoBreaks(StripFences(Trim(text)));
    KeptLinesMembers(lines);
    forall s | s in KeptLines(lines)
      ensures IsCleanSuggestion(s)
    {
      var k :| 0 <= k < |lines| && Trim(lines[k]) == s && IsSuggestion(s);
      TrimLine(lines[k]);
    }
  }

  lemma {:induction false} PartsSuggestionsClean(parts: seq<ModelPart>)
    ensures forall s :: s in PartsSuggestions(parts) ==> IsCleanSuggestion(s)
  {
    if |parts| > 0 {
      PartsSuggestionsClean(parts[..|parts| - 1]);
      var last := parts[|parts| - 1];
      if last.text.Some? {
        TextSuggestionsClean(last.text.value);
      }
    }
  }

  lemma {:induction false} CandidatesSuggestionsClean(candidates: seq<Candidate>)
    ensures forall s :: s in CandidatesSuggestions(candidates) ==> IsCleanSuggestion(s)
  {
    if |candidates| > 0 {
      CandidatesSuggestionsClean(candidates[..|candidates| - 1]);
      var last := candidates[|candidates| - 1];
      if last.content.Some? && last.content.value.parts.Some? {
        PartsSuggestionsClean(last.content.value.parts.value);
      }
    }
  }

  /**
   * The result: between one and `max` clean suggestions, the first ones of the
   * response in its order; the error exactly when the response holds none or
   * none were asked for.
   */
  lemma ProcessedCandidatesSpec(apiResponseCandidates: Option<seq<Candidate>>, max: u32)
    ensures var r := ProcessedCandidates(apiResponseCandidates, max);
      var all := AllSuggestions(apiResponseCandidates);
      && (r.Err? <==> all == [] || max == 0)
      && (r.Err? ==> r.error == NoSuggestionsMessage)
      && (r.Ok? ==> && |r.value| == (if |all| < max as int then |all| else max as int)
                    && r.value == all[..|r.value|]
                    && forall s :: s in r.value ==> IsCleanSuggestion(s))
  {
    if apiResponseCandidates.Some? {
      CandidatesSuggestionsClean(apiResponseCandidates.value);
    }
    var all := AllSuggestions(apiResponseCandidates);
    if |all| > max as int {
      assert forall s :: s in all[..max] ==> s in all;
    } else {
      assert all[..|all|] == all;
    }
  }

  /** The suggestions of two runs of candidates are those of the first, then those of the second. */
  lemma {:induction false} CandidatesSuggestionsConcat(a: seq<Candidate>, b: seq<Candidate>)
    ensures CandidatesSuggestions(a + b) == CandidatesSuggestions(a) + CandidatesSuggestions(b)
  {
    if |b| == 0 {
      assert a + b == a;
    } else {
      var b' := b[..|b| - 1];
      CandidatesSuggestionsConcat(a, b');
      assert (a + b)[..|a + b| - 1] == a + b';
      ConcatAssoc(CandidatesSuggestions(a), CandidatesSuggestions(b'), CandidateSuggestions(b[|b| - 1]));
    }
  }

  // ---------------------------------------------------------------------------
  // Fences
  // ---------------------------------------------------------------------------

  /** Lines the model could have meant as suggestions, none starting with a backtick. */
  predicate AreCleanLines(lines: seq<string>) {
    |lines| > 0 && (forall k :: 0 <= k < |lines| ==> IsCleanSuggestion(lines[k])) && lines[0][0] != '`'
  }

  /** Clean lines joined with "\n" read back as themselves, and their join is trimmed. */
  lemma CleanLinesRoundTrip(lines: seq<string>)
    requires AreCleanLines(lines)
    ensures IsTrimmed(JoinWith(lines, "\n"))
    ensures JoinWith(lines, "\n") != "" && JoinWith(lines, "\n")[0] == lines[0][0]
    ensures KeptLines(Lines(JoinWith(lines, "\n"))) == lines
  {
    var j := JoinWith(lines, "\n");
    forall k | 0 <= k < |lines|
      ensures '\n' !in lines[k] && !EndsWith(lines[k], "\r")
    {
      var l := lines[k];
      assert l[|l| - 1..] == [l[|l| - 1]];
    }
    LinesOfJoin(lines);
    JoinEnds(lines);
    KeptCleanLines(lines);
  }

  lemma {:induction false} JoinEnds(lines: seq<string>)
    requires |lines| > 0 && forall k :: 0 <= k < |lines| ==> lines[k] != ""
    ensures var j := JoinWith(lines, "\n");
      j != "" && j[0] == lines[0][0] && j[|j| - 1] == lines[|lines| - 1][|lines[|lines| - 1]| - 1]
  {
    if |lines| > 1 {
      JoinEnds(lines[1..]);
    }
  }

  lemma {:induction false} KeptCleanLines(lines: seq<string>)
    requires forall k :: 0 <= k < |lines| ==> IsCleanSuggestion(lines[k])
    ensures KeptLines(lines) == lines
  {
    if |lines| > 0 {
      KeptCleanLines(lines[..|lines| - 1]);
      TrimTrimmed(lines[|lines| - 1]);
      assert lines == lines[..|lines| - 1] + [lines[|lines| - 1]];
    }
  }

  /** A block fenced by "```" lines gives its lines. */
  lemma FencedBlockSuggestions(lines: seq<string>)
    requires AreCleanLines(lines)
    ensures TextSuggestions("```\n" + JoinWith(lines, "\n") + "\n```") == lines
  {
    var j := JoinWith(lines, "\n");
    CleanLinesRoundTrip(lines);
    var t := "```\n" + j + "\n```";
    TrimTrimmed(t);
    assert t[..4] == "```\n";
    assert t[|t| - 4..] == "\n```";
    var a := t[4..];
    assert a == j + "\n```";
    assert a[|a| - 4..] == "\n```";
    assert a[..|a| - 4] == j;
    TrimTrimmed(j);
  }

  /** A block fenced by "```" on the same lines as its text gives its lines. */
  lemma InlineFencedBlockSuggestions(lines: seq<string>)
    requires AreCleanLines(lines)
    ensures TextSuggestions(Fence + JoinWith(lines, "\n") + Fence) == lines
  {
    var j := JoinWith(lines, "\n");
    CleanLinesRoundTrip(lines);
    var t := Fence + j + Fence;
    TrimTrimmed(t);
    assert t[3] == j[0];
    assert !StartsWith(t, "```\n");
    assert t[..3] == Fence;
    assert t[|t| - 3..] == Fence;
    var a := t[3..];
    assert a == j + Fence;
    assert a[|a| - 3..] == Fence;
    assert a[..|a| - 3] == j;
    TrimTrimmed(j);
  }

  /** Text without a fence gives its lines. */
  lemma PlainTextSuggestions(lines: seq<string>)
    requires AreCleanLines(lines)
    ensures TextSuggestions(JoinWith(lines, "\n")) == lines
  {
    var j := JoinWith(lines, "\n");
    CleanLinesRoundTrip(lines);
    TrimTrimmed(j);
    assert !StartsWith(j, Fence) by {
      assert j[0] != '`';
    }
  }

  /**
   * When the closing fence overlaps the opening one, stripping falls back to the
   * text before stripping.
   */
  lemma OverlappingFenceKept()
    ensures StripFences(Fence + "\n" + Fence) == Fence + "\n" + Fence
  {
    var t := Fence + "\n" + Fence;
    assert t[..4] == "```\n";
    assert t[|t| - 4..] == "\n```";
    var a := t[4..];
    assert a == Fence;
    assert !EndsWith(a, "\n```");
  }

  /** Two bare fence lines yield no suggestion. */
  lemma OverlappingFenceYieldsNothing()
    ensures TextSuggestions(Fence + "\n" + Fence) == []
  {
    var t := Fence + "\n" + Fence;
    TrimTrimmed(t);
    OverlappingFenceKept();
    FenceLines();
    BareFencesDropped();
  }

  lemma FenceLines()
    ensures Lines(Fence + "\n" + Fence) == [Fence, Fence]
  {
    LinesCons(Fence, Fence);
    assert LineEnd(Fence) == 3;
  }

  lemma BareFencesDropped()
    ensures KeptLines([Fence, Fence]) == []
  {
    TrimTrimmed(Fence);
    var one := [Fence];
    assert one[..0] == [];
    assert KeptLines(one) == [];
    var two := [Fence, Fence];
    assert two[..1] == one;
  }
}
