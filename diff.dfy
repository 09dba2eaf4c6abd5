/**
 * The diff annotator (`preprocess_diff_for_ai` in src/diff/mod.rs): every
 * line of a unified diff is kept, except that an added line "+x" becomes
 * "[ADDED_LINE]: x" and a removed line "-x" becomes "[REMOVED_LINE]: x".
 * Header lines, recognised by sixteen prefixes, are never rewritten, and
 * that test comes first, so "+++ b/f" and "--- a/f" stay as they are.
 */
module Diff {
  import opened Text

  /** The prefixes of the lines that are kept verbatim, in the order the source tests them. */
  const HeaderPrefixes: seq<string> := [
    "+++", "---", "diff --git", "index", "old mode", "new mode",
    "deleted file mode", "new file mode", "copy from", "copy to",
    "rename from", "rename to", "similarity index", "dissimilarity index",
    "Binary files", "@@"
  ]

  const AddedMarker: string := "[ADDED_LINE]: "
  const RemovedMarker: string := "[REMOVED_LINE]: "

  predicate IsHeaderLine(line: string) {
    exists k :: 0 <= k < |HeaderPrefixes| && StartsWith(line, HeaderPrefixes[k])
  }

  /** How one line reads after annotation. */
  function AnnotateLine(line: string): string {
    if IsHeaderLine(line) then line
    else if StartsWith(line, "+") then AddedMarker + line[1..]
    else if StartsWith(line, "-") then RemovedMarker + line[1..]
    else line
  }

  /** The annotated diff: the annotated lines of the input, joined with "\n". */
  function PreprocessDiff(rawDiff: string): string {
    JoinWith(AnnotateAll(Lines(rawDiff)), "\n")
  }

  function AnnotateAll(lines: seq<string>): (r: seq<string>)
    ensures |r| == |lines|
    ensures forall k :: 0 <= k < |lines| ==> r[k] == AnnotateLine(lines[k])
  {
    seq(|lines|, k requires 0 <= k < |lines| => AnnotateLine(lines[k]))
  }

  /**
   * `preprocess_diff_for_ai`: a pass over the lines of the input, pushing each
   * line or its annotated form, then the join.
   */
  method PreprocessDiffForAi(rawDiff: string) returns (processed: string)
    ensures processed == PreprocessDiff(rawDiff)
  {
    var lines := Lines(rawDiff);
    var processedLines: seq<string> := [];
    for i := 0 to |lines|
      invariant processedLines == AnnotateAll(lines[..i])
    {
      var line := lines[i];
      if IsHeaderLine(line) {
        processedLines := processedLines + [line];
      } else if StartsWith(line, "+") {
        processedLines := processedLines + [AddedMarker + line[1..]];
      } else if StartsWith(line, "-") {
        processedLines := processedLines + [RemovedMarker + line[1..]];
      } else {
        processedLines := processedLines + [line];
      }
      assert lines[..i + 1] == lines[..i] + [line];
    }
    assert lines[..|lines|] == lines;
    processed := JoinWith(processedLines, "\n");
  }

  // ---------------------------------------------------------------------------
  // Reading the annotations back
  // ---------------------------------------------------------------------------

  /** The diff line an annotated line stands for. */
  function RestoreLine(line: string): string {
    if StartsWith(line, AddedMarker) then "+" + line[|AddedMarker|..]
    else if StartsWith(line, RemovedMarker) then "-" + line[|RemovedMarker|..]
    else line
  }

  /**
   * Annotation loses nothing for a line that does not itself start with '[',
   * which holds of every line git writes in a diff.
   */
  lemma RestoreAnnotated(line: string)
    requires !StartsWith(line, "[")
    ensures RestoreLine(AnnotateLine(line)) == line
  {
    var a := AnnotateLine(line);
    if !IsHeaderLine(line) && StartsWith(line, "+") {
      assert a[..|AddedMarker|] == AddedMarker;
      assert a[|AddedMarker|..] == line[1..];
      assert line == "+" + line[1..];
    } else if !IsHeaderLine(line) && StartsWith(line, "-") {
      assert a[..|AddedMarker|] != AddedMarker by {
        assert a[1] == 'R' && AddedMarker[1] == 'A';
      }
      assert a[..|RemovedMarker|] == RemovedMarker;
      assert a[|RemovedMarker|..] == line[1..];
      assert line == "-" + line[1..];
    } else {
      assert a == line;
    }
  }

  /**
   * Which lines are marked: for a line that does not start with '[', the
   * annotated line carries the added-line marker exactly when the line starts
   * with '+' and no header prefix, and the removed-line marker exactly when it
   * starts with '-' and no header prefix.
   */
  lemma MarkedExactly(line: string)
    requires !StartsWith(line, "[")
    ensures StartsWith(AnnotateLine(line), AddedMarker) <==> !IsHeaderLine(line) && StartsWith(line, "+")
    ensures StartsWith(AnnotateLine(line), RemovedMarker) <==> !IsHeaderLine(line) && StartsWith(line, "-")
  {
    var a := AnnotateLine(line);
    if !IsHeaderLine(line) && StartsWith(line, "+") {
      assert a[..|AddedMarker|] == AddedMarker;
      assert a[1] == 'A' && RemovedMarker[1] == 'R';
    } else if !IsHeaderLine(line) && StartsWith(line, "-") {
      assert a[..|RemovedMarker|] == RemovedMarker;
      assert a[1] == 'R' && AddedMarker[1] == 'A';
    } else {
      assert a == line;
    }
  }

  /** A line starting "+++" counts as a header, so an added line whose text starts "++" is left unmarked. */
  lemma AddedPlusPlusLineUnmarked(text: string)
    ensures AnnotateLine("+" + "++" + text) == "+++" + text
  {
    var line := "+" + "++" + text;
    assert line[..3] == HeaderPrefixes[0];
  }

  /** Likewise a removed line whose text starts "--" is left unmarked. */
  lemma RemovedDashDashLineUnmarked(text: string)
    ensures AnnotateLine("-" + "--" + text) == "---" + text
  {
    var line := "-" + "--" + text;
    assert line[..3] == HeaderPrefixes[1];
  }

  /** Annotation adds no line break, and a non-empty line stays non-empty. */
  lemma AnnotateLineKeepsBreaks(line: string)
    requires '\n' !in line
    ensures '\n' !in AnnotateLine(line)
    ensures line != "" ==> AnnotateLine(line) != ""
  {
    if !IsHeaderLine(line) && (StartsWith(line, "+") || StartsWith(line, "-")) {
      assert forall c :: c in line[1..] ==> c in line;
    }
  }

  /** The ends of the lines `str::lines` can give back unchanged after a join. */
  predicate HasPlainLineEnds(rawDiff: string) {
    var lines := Lines(rawDiff);
    (forall k :: 0 <= k < |lines| ==> !EndsWith(lines[k], "\r") && !StartsWith(lines[k], "[")) &&
    (|lines| > 0 ==> lines[|lines| - 1] != "")
  }

  /**
   * For a diff whose lines have no '\r' ending and do not start with '[':
   * the output has exactly one line per input line, and restoring each output
   * line gives the input line back.
   */
  lemma {:induction false} PreprocessRecoversLines(rawDiff: string)
    requires HasPlainLineEnds(rawDiff)
    ensures Lines(PreprocessDiff(rawDiff)) == AnnotateAll(Lines(rawDiff))
    ensures var out := Lines(PreprocessDiff(rawDiff));
      |out| == |Lines(rawDiff)| && forall k :: 0 <= k < |out| ==> RestoreLine(out[k]) == Lines(rawDiff)[k]
  {
    var lines := Lines(rawDiff);
    var annotated := AnnotateAll(lines);
    LinesHaveNoBreaks(rawDiff);
    forall k | 0 <= k < |annotated|
      ensures '\n' !in annotated[k] && !EndsWith(annotated[k], "\r")
    {
      AnnotateLineKeepsBreaks(lines[k]);
      AnnotatedEnd(lines[k]);
    }
    if |lines| > 0 {
      AnnotateLineKeepsBreaks(lines[|lines| - 1]);
    }
    LinesOfJoin(annotated);
    forall k | 0 <= k < |annotated|
      ensures RestoreLine(annotated[k]) == lines[k]
    {
      RestoreAnnotated(lines[k]);
    }
  }

  /** Marking a line keeps its last character, so a line with no '\r' ending keeps none. */
  lemma AnnotatedEnd(line: string)
    requires !EndsWith(line, "\r")
    ensures !EndsWith(AnnotateLine(line), "\r")
  {
    var a := AnnotateLine(line);
    if a != line {
      var marker := if StartsWith(line, "+") then AddedMarker else RemovedMarker;
      assert a == marker + line[1..];
      if |line| > 1 {
        assert a[|a| - 1] == line[|line| - 1];
        assert line[|line| - 1..] == [line[|line| - 1]];
        assert a[|a| - 1..] == [a[|a| - 1]];
      } else {
        assert a[|a| - 1] == ' ';
      }
    }
  }

  /** An empty diff gives empty text. */
  lemma PreprocessEmpty()
    ensures PreprocessDiff("") == ""
  {
  }

  lemma PlainLine(l: string)
    requires '\n' !in l && '\r' !in l
    ensures '\n' !in l && !EndsWith(l, "\r")
  {
    if |l| > 0 {
      assert l[|l| - 1..] == [l[|l| - 1]];
    }
  }

  /** A removed line whose text does not start "--" is marked. */
  lemma RemovedLineMarked(text: string)
    requires !StartsWith(text, "--")
    ensures AnnotateLine("-" + text) == RemovedMarker + text
  {
    var line := "-" + text;
    assert line[0] == '-' && line[1..] == text;
    forall k | 0 <= k < |HeaderPrefixes|
      ensures !StartsWith(line, HeaderPrefixes[k])
    {
      if k == 1 {
        if |text| >= 2 {
          assert line[..3] == "-" + text[..2];
        }
      } else {
        assert HeaderPrefixes[k][0] != '-';
      }
    }
    assert !IsHeaderLine(line);
  }

  /** File and hunk headers are kept as they are. */
  lemma HeadersKept(oldName: string, newName: string, range: string)
    ensures AnnotateLine("--- " + oldName) == "--- " + oldName
    ensures AnnotateLine("+++ " + newName) == "+++ " + newName
    ensures AnnotateLine("@@" + range) == "@@" + range
  {
    assert StartsWith("--- " + oldName, HeaderPrefixes[1]);
    assert StartsWith("+++ " + newName, HeaderPrefixes[0]);
    assert StartsWith("@@" + range, HeaderPrefixes[15]);
  }

  /** A one-line removal: the file headers and the hunk header stay, the removed line is marked. */
  lemma RemovalHunk(oldName: string, newName: string, range: string, text: string)
    requires '\n' !in oldName && '\n' !in newName && '\n' !in range && '\n' !in text
    requires '\r' !in oldName && '\r' !in newName && '\r' !in range && '\r' !in text
    requires !StartsWith(text, "--")
    ensures PreprocessDiff(JoinWith(["--- " + oldName, "+++ " + newName, "@@" + range, "-" + text], "\n"))
      == JoinWith(["--- " + oldName, "+++ " + newName, "@@" + range, RemovedMarker + text], "\n")
  {
    var lines := ["--- " + oldName, "+++ " + newName, "@@" + range, "-" + text];
    forall k | 0 <= k < |lines|
      ensures '\n' !in lines[k] && !EndsWith(lines[k], "\r")
    {
      PlainLine(lines[k]);
    }
    LinesOfJoin(lines);
    HeadersKept(oldName, newName, range);
    RemovedLineMarked(text);
    assert AnnotateAll(lines) == ["--- " + oldName, "+++ " + newName, "@@" + range, RemovedMarker + text];
  }
}
