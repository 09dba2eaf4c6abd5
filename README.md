# ai-commit core, modelled in Dafny

ai-commit is a command-line tool. It asks a language model for Git commit
messages that describe the staged changes. This project models the part of
the tool that turns what git reports into a prompt, and the model's answer
into a list of suggestions.

The model has four parts:

- **The staged-change classifier** (`numstat.dfy`, `staged_changes.dfy`).
  - Pass A reads the NUL-separated report of `git diff --staged --numstat -z`.
    It builds the binary-status map: a path goes to true exactly when both
    line counts are "-".
  - Pass B reads the NUL-separated report of `git status --porcelain=v1 -z`.
    For each record it adds descriptions, chosen by the index status letter,
    to two lists: binary-file changes and structure changes. Both lists are
    sorted at the end.
  - Both passes are modelled on bytes. That covers the UTF-8 checks and
    every error the source returns. Slicing the status lead off a character
    boundary, which panics in the source, is an error value here.
- **The diff annotator** (`diff.dfy`). Each added line "+x" becomes
  "[ADDED_LINE]: x" and each removed line "-x" becomes "[REMOVED_LINE]: x".
  Header lines are kept; they are recognised by sixteen prefixes, tested
  first.
- **The response reader** (`ai.dfy`). It walks the candidates of a Gemini
  response, their parts and the lines of each text.
  - It strips one surrounding code fence.
  - It keeps every trimmed line that is neither empty nor a bare fence.
  - It cuts the list to the number asked for, and fails when nothing is left.
- **The prompt builder** (`prompt.dfy`).
  - The commit-type table is sorted by priority, then by name.
  - The type-selection hierarchy is fixed.
  - The prompt's paragraphs are joined with blank lines, in the order the
    source pushes them.

Supporting modules:

- `wrappers.dfy`: `Option` and `Result`.
- `bytes.dfy`: bytes, NUL-separated fields, tab splitting and UTF-8 validity.
- `text.dfy`: Rust's `trim`, `trim_end`, `lines`, `join`, decimal
  formatting and `u32`.
- `ordering.dfy`: sorting, and the lexicographic order on strings.

Each loop of the source is a method, proved equal to a function of its
inputs. The properties are proved about those functions. Three kinds of
property are proved:

- Round trips: a report git could have written is read back as its records,
  and annotated lines restore to the diff's lines.
- Ordering: the sort's output is independent of the algorithm.
- Exact contents of the prompt and of the suggestion list.

Where the prose description of the system and the code disagree, the model
follows the code:

- An 'R' or 'C' status record with no old-path field after it is not an
  error. The entry simply has no old path (`MissingOldPathIsNotAnError`).
- A copy ('C') adds "copied: old to new" whenever an old path was read,
  without the non-empty test that renames have. It adds the binary
  description whether or not there is an old path.
- A similarity score is whatever Rust's `parse::<u32>` accepts before the
  '%'. That includes a leading '+', and excludes values of 2^32 and above.
- Only the new path of a numstat rename is checked for UTF-8. The old path
  is skipped without decoding.
- git writes a numstat rename with an empty path column, never with a
  similarity score. The score branch therefore only fires for a staged file
  whose name looks like a score, such as "50%". Such a line then takes the
  next two records' leads as its old and new path
  (`ScoreShapedPathMisread`). The model keeps this branch as the code has
  it, and the round-trip lemmas leave such names out (`WellFormedLine`).

## Model

| member | source | states |
|---|---|---|
| Bytes.Fields | src/git/mod.rs:110-112 | the fields of a report (split at NUL, empties dropped) are non-empty and NUL-free |
| Bytes.FieldsOfTerminated | src/git/mod.rs:110-112 | reading the fields of a report written as NUL-terminated non-empty NUL-free fields gives exactly those fields back |
| Bytes.FieldsAllNul | src/git/mod.rs:106-107 | an empty or all-NUL report has no fields, so the early return agrees with the general path |
| Bytes.FieldsNotAllNul | src/git/mod.rs:212-214 | a report with a non-NUL byte has at least one field |
| Bytes.Split | src/git/mod.rs:121 | `split('\t')` yields at least one piece and no piece holds a tab |
| Bytes.JoinSplit | src/git/mod.rs:121 | joining the pieces of a split with the separator gives the input back |
| Bytes.SplitJoin | src/git/mod.rs:121 | splitting a join of tab-free pieces gives the pieces back |
| Bytes.Utf8Concat | src/git/mod.rs:115 | the concatenation of two valid UTF-8 byte strings is valid UTF-8 |
| Numstat.NextRecord | src/git/mod.rs:114-199 | the record read at the front takes between one field and all remaining fields; rename-shaped leads need two more fields and a UTF-8 new path, else the named error |
| Numstat.BinaryStatusMap | src/git/mod.rs:101-202 | the cursor loop returns exactly the map (or the first error) of reading the records in order and inserting each, later records overwriting earlier ones |
| Numstat.BinaryStatusMapOfFields | src/git/mod.rs:106-112 | the early return for an empty or all-NUL report is what reading its fields would give |
| Numstat.InsertAllLastWins | src/git/mod.rs:148-197 | a path maps to the binary flag of the last record naming it |
| Numstat.InsertAllUntouched | src/git/mod.rs:104-201 | a path no record names keeps its presence and value from the start map |
| Numstat.InsertAllKeys | src/git/mod.rs:104-201 | every key of the map comes from the start map or from some record |
| Numstat.TruncatedRenameLeadFails | src/git/mod.rs:129-141 | a rename-shaped lead followed by fewer than two fields fails the whole call |
| Numstat.NextRecordOfLine | src/git/mod.rs:114-199 | a well-formed numstat line is read back as its own record (keyed by the new path), taking exactly its own fields |
| Numstat.RecordsOfLines | src/git/mod.rs:114-200 | the fields of well-formed lines are read back as one record per line, in order |
| Numstat.NumstatRoundTrip | src/git/mod.rs:101-202 | for a report git could have written, the map is the records of its lines inserted in order |
| Numstat.NumstatReportLookup | src/git/mod.rs:123-197 | for such a report, a path is binary exactly when the last line keyed by it has "-" for both counts, and a path no line names is absent |
| Numstat.ScoreShapedPathMisread | src/git/mod.rs:148-171 | an in-place line whose path looks like a similarity score ("50%") swallows the next two leads as paths: the map keys the whole third lead and names none of the three paths |
| Numstat.LeadTakesTwoFields | src/git/mod.rs:129-196 | a rename-shaped lead consumes the next two fields, whatever they hold, and keys the record by the second |
| StagedChanges.ByteLexTotalOrder | src/git/mod.rs:339-340 | the byte-lexicographic order of Rust `String` is an antisymmetric total order |
| StagedChanges.SortStrings | src/git/mod.rs:339-340 | `sort` yields a sorted permutation of the list |
| StagedChanges.NextEntry | src/git/mod.rs:223-254 | the entry read at the front takes one field, or two for an 'R'/'C' lead with an old-path field after it; a lead under three bytes is skipped; non-UTF-8 leads and old paths and off-boundary slicing are errors |
| StagedChanges.PushDescriptions | src/git/mod.rs:256-337 | the match on the index status appends to each list exactly that entry's descriptions |
| StagedChanges.GetStagedChangesSummary | src/git/mod.rs:204-342 | the cursor loop returns exactly the summary function of the two reports (errors included), and both lists are sorted |
| StagedChanges.StructureIndependentOfMap | src/git/mod.rs:258-337 | the structure-change list does not depend on the binary-status map |
| StagedChanges.BinaryDescriptionsNeedBinaryPaths | src/git/mod.rs:259-334 | there are no more binary-file descriptions than entries, and each ends with the path of an entry that the map marks binary |
| StagedChanges.EmitBinary | src/git/mod.rs:259-334 | one entry adds at most one binary-file description, only for a binary path, ending with that path |
| StagedChanges.NoBinaryPathsNoBinaryChanges | src/git/mod.rs:259-334 | with no entry path marked binary, the binary-change list is empty |
| StagedChanges.EmitAtMostOne | src/git/mod.rs:258-337 | one entry adds at most one description to each list |
| StagedChanges.SummaryIsSortedDescriptions | src/git/mod.rs:339-341 | each summary list is sorted and is a permutation of the descriptions the entries emit |
| StagedChanges.NextEntryOfEntry | src/git/mod.rs:223-254 | a well-formed status record is read back as itself, taking exactly its own fields |
| StagedChanges.EntriesOfFields | src/git/mod.rs:223-254 | the fields of well-formed records are read back as those records, in order |
| StagedChanges.StatusRoundTrip | src/git/mod.rs:212-254 | the report of well-formed records is empty exactly when there are none, and reading it recovers the records |
| StagedChanges.SummaryOfReports | src/git/mod.rs:204-342 | for reports git could have written, the summary is the sorted descriptions of the records, judged binary by the numstat lines |
| StagedChanges.MissingOldPathIsNotAnError | src/git/mod.rs:238-251 | an 'R'/'C' record cut off before its old path is read as an entry without one, not as an error |
| StagedChanges.SingleRecordSummary | src/git/mod.rs:204-342 | a one-record status report with a one-line numstat report gives exactly that record's descriptions |
| StagedChanges.RenamedFileSummary | src/git/mod.rs:273-293 | a staged rename gives "renamed: old to new", and "renamed binary file: old to new" exactly when both counts are "-" |
| StagedChanges.AddedFileSummary | src/git/mod.rs:259-268 | a staged new file gives "added binary file: p" exactly when both counts are "-", and no structure change |
| StagedChanges.DeletedFileSummary | src/git/mod.rs:269-272 | a staged deletion gives "deleted file: p" and no binary description, even for a binary file |
| StagedChanges.ModifiedFileSummary | src/git/mod.rs:294-304 | a staged modification gives "modified binary file: p" exactly when both counts are "-", and no structure change |
| StagedChanges.TypeChangedFileSummary | src/git/mod.rs:305-318 | a staged type change always gives "type changed for: p", and "type changed to binary: p" exactly when both counts are "-" |
| StagedChanges.CopiedFileSummary | src/git/mod.rs:320-334 | a staged copy with an old path gives "copied: old to new", and "copied binary file to: new" exactly when both counts are "-" |
| StagedChanges.CopiedWithoutOldPathSummary | src/git/mod.rs:320-334 | a copy record cut off before its old path gives no structure change, but still "copied binary file to: p" exactly when both counts are "-" |
| StagedChanges.OneEntrySummary | src/git/mod.rs:204-342 | a status report read as one entry, with a one-line numstat report, gives exactly that entry's descriptions, unsorted lists of at most one |
| StagedChanges.OtherStatusSummary | src/git/mod.rs:319-336 | a record whose index status is none of 'A', 'D', 'R', 'M', 'T', 'C' gives nothing in either list |
| Ordering.Sort | src/git/mod.rs:339-340 | the result is sorted and a permutation of the input |
| Ordering.SortedPermutationUnique | src/git/mod.rs:339-340 | under an antisymmetric total order two sorted permutations of one sequence are equal, so any correct sort agrees with the model's |
| Ordering.SortedPermutationUniqueOn | src/prompt/mod.rs:94-97 | the same holds when the order is antisymmetric only on the sequence's own elements |
| Ordering.LexLeTotal | src/git/mod.rs:339-340 | the lexicographic order is total |
| Ordering.LexLeTransitive | src/git/mod.rs:339-340 | the lexicographic order is transitive |
| Ordering.LexLeAntisymmetric | src/git/mod.rs:339-340 | under an injective rank the lexicographic order is antisymmetric |
| Ordering.LexTotalOrder | src/git/mod.rs:339-340 | any order that is the lexicographic order under an injective rank is an antisymmetric total order |
| Ordering.ChainSorted | src/prompt/mod.rs:94-97 | under a transitive order, a sequence whose neighbours are in order is sorted |
| Text.TrimStartSpec | src/ai/mod.rs:71 | `trim_start` keeps a suffix, removes only whitespace, and stops at a non-whitespace character |
| Text.TrimEndSpec | src/prompt/mod.rs:172 | `trim_end` keeps a prefix, removes only whitespace, and stops at a non-whitespace character |
| Text.TrimSpec | src/ai/mod.rs:71 | `trim` gives a contiguous piece of its input with nothing left to trim |
| Text.TrimEmpty | src/prompt/mod.rs:213 | trimming leaves nothing exactly when the text is all whitespace |
| Text.TrimTrimmed | src/ai/mod.rs:94 | trimming a trimmed text changes nothing |
| Text.LinesHaveNoBreaks | src/diff/mod.rs:3 | no line of `lines()` holds a '\n' |
| Text.LinesOfJoin | src/diff/mod.rs:3 | `lines()` of a join with "\n" of lines holding no break and no trailing '\r' gives those lines back |
| Text.Decimal | src/prompt/mod.rs:156-162 | a number is written as decimal digits, with a leading '0' only for zero |
| Text.DecimalRoundTrip | src/prompt/mod.rs:156-162 | the written number reads back as the number |
| Diff.AnnotateAll | src/diff/mod.rs:3-29 | one annotated line per input line, each the annotation of the line at its position |
| Diff.PreprocessDiffForAi | src/diff/mod.rs:1-31 | the loop's output is the annotated lines joined with "\n" |
| Diff.RestoreAnnotated | src/diff/mod.rs:20-28 | for a line not starting with '[', restoring the annotated line gives the line back |
| Diff.MarkedExactly | src/diff/mod.rs:4-28 | the added marker appears exactly on non-header lines starting '+', the removed marker exactly on non-header lines starting '-' |
| Diff.AddedPlusPlusLineUnmarked | src/diff/mod.rs:4 | an added line whose text starts "++" is taken for a header and left unmarked |
| Diff.RemovedDashDashLineUnmarked | src/diff/mod.rs:5 | a removed line whose text starts "--" is taken for a header and left unmarked |
| Diff.RemovedLineMarked | src/diff/mod.rs:24-25 | a removed line whose text does not start "--" is marked |
| Diff.AnnotateLineKeepsBreaks | src/diff/mod.rs:20-28 | annotation adds no line break and keeps a non-empty line non-empty |
| Diff.PreprocessRecoversLines | src/diff/mod.rs:1-31 | for a diff with plain line ends, the output has one line per input line and each restores to its input line |
| Diff.PreprocessEmpty | src/diff/mod.rs:132-134 | an empty diff gives empty text |
| Diff.HeadersKept | src/diff/mod.rs:4-21 | file and hunk headers pass through unchanged |
| Diff.RemovalHunk | src/diff/mod.rs:55-65 | a one-line removal keeps the file and hunk headers and marks the removed line |
| Ai.ProcessApiResponseCandidates | src/ai/mod.rs:60-115 | the nested loop, cut and empty check return exactly the first `max` suggestions of the response, or the error |
| Ai.PushPartsSuggestions | src/ai/mod.rs:69-100 | the loop over parts appends exactly the suggestions of the parts, in order |
| Ai.PushTextSuggestions | src/ai/mod.rs:70-98 | the fence stripping and the loop over lines append exactly the kept lines of the text |
| Ai.KeptLinesMembers | src/ai/mod.rs:93-98 | a string is kept exactly when it is the trimmed form of some line and neither empty nor a bare fence; no more kept lines than lines |
| Ai.TextSuggestionsClean | src/ai/mod.rs:71-98 | every suggestion from a text is trimmed, non-empty, not a bare fence and a single line |
| Ai.PartsSuggestionsClean | src/ai/mod.rs:69-100 | the same holds for the suggestions of any parts |
| Ai.CandidatesSuggestionsClean | src/ai/mod.rs:65-104 | the same holds for the suggestions of any candidates |
| Ai.ProcessedCandidatesSpec | src/ai/mod.rs:106-114 | the error exactly when the response yields nothing or zero are asked for; otherwise min(count, max) clean suggestions, a prefix of all of them |
| Ai.CandidatesSuggestionsConcat | src/ai/mod.rs:65-104 | the suggestions of two runs of candidates are those of the first followed by those of the second |
| Ai.CleanLinesRoundTrip | src/ai/mod.rs:93-98 | clean lines joined with "\n" are read back as themselves |
| Ai.FencedBlockSuggestions | src/ai/mod.rs:73-81 | a block fenced by "```" lines yields exactly its lines |
| Ai.InlineFencedBlockSuggestions | src/ai/mod.rs:82-90 | a block with the fences on its first and last lines yields exactly its lines |
| Ai.PlainTextSuggestions | src/ai/mod.rs:93-98 | unfenced clean text yields exactly its lines |
| Ai.OverlappingFenceKept | src/ai/mod.rs:76-80 | when the closing fence overlaps the opening one, the text before stripping is kept |
| Ai.OverlappingFenceYieldsNothing | src/ai/mod.rs:73-98 | two bare fence lines yield no suggestion |
| Prompt.TypeLeOrder | src/prompt/mod.rs:94-97 | the comparator of `sort_by` is total and transitive |
| Prompt.SortCommitTypes | src/prompt/mod.rs:92-97 | the sorted table is sorted by the comparator and a permutation of the table |
| Prompt.TypeLeBothWays | src/prompt/mod.rs:94-97 | entries the comparator puts both ways round have the same priority and name |
| Prompt.TableNamesUnique | src/prompt/mod.rs:14-87 | no two entries of the table share a name |
| Prompt.FeatHighest | src/prompt/mod.rs:14-87 | the table has twelve entries, and "feat" alone has the highest priority |
| Prompt.HighestAt | src/prompt/mod.rs:94-97 | an entry whose priority is above every other position's is above every other entry |
| Prompt.SortedOrderUnique | src/prompt/mod.rs:92-97 | in a table with distinct names only one order is sorted, so stable and unstable sorts agree |
| Prompt.HighestPriorityFirst | src/prompt/mod.rs:92-97 | an entry alone at the highest priority heads the sorted list |
| Prompt.ListedInOrder | src/prompt/mod.rs:92-97 | in such a table any sorted listing is the sorted table, headed by that entry |
| Prompt.CommitTypesListed | src/prompt/mod.rs:92-97 | any sorted permutation of the table is the model's listing, with twelve entries headed by "feat" |
| Prompt.FormatTypesAppend | src/prompt/mod.rs:99-104 | one more type adds its line and a line break at the end |
| Prompt.FormatCommitTypesForPrompt | src/prompt/mod.rs:89-106 | the loop yields the lines of the sorted table, each ended by "\n" |
| Prompt.EntryPlain | src/prompt/mod.rs:100-103 | the line of a type whose fields hold no line break holds none |
| Prompt.EntryEnd | src/prompt/mod.rs:101 | every type's line ends with ')' |
| Prompt.FormatTypesLines | src/prompt/mod.rs:99-104 | the listing has exactly one line per type, in order, each that type's entry |
| Prompt.FormatTypesJoined | src/prompt/mod.rs:99-104 | the listing is the entries joined by "\n", with a final "\n" |
| Prompt.FormatTypesEnd | src/prompt/mod.rs:99-104 | a non-empty listing ends with ")\n" |
| Prompt.TrimmedListing | src/prompt/mod.rs:172 | `trim_end` removes only the listing's final line break |
| Prompt.EveryTypeListed | src/prompt/mod.rs:89-106 | every type of the table is a line of the listing |
| Prompt.CommitTypeListing | src/prompt/mod.rs:89-106 | the table's listing opens with the "feat" line, ends with ")\n", has twelve types and holds every type's line |
| Prompt.ListingOf | src/prompt/mod.rs:89-106 | the same for any table with a single top-priority entry |
| Prompt.FormatTypesContains | src/prompt/mod.rs:99-104 | the listing holds each listed type's line and its break |
| Prompt.SortedSingleLine | src/prompt/mod.rs:92-97 | sorting keeps the fields free of line breaks |
| Prompt.HierarchyNamesTableTypes | src/prompt/mod.rs:110-120 | the hierarchy has ten rungs, each naming a type of the table |
| Prompt.HierarchyTypesDistinct | src/prompt/mod.rs:110-120 | the rungs name different types, and neither "revert" nor "readme" |
| Prompt.GuidanceHeadingFirst | src/prompt/mod.rs:110 | the guidance opens with its heading line |
| Prompt.GuidanceHoldsSteps | src/prompt/mod.rs:111-120 | every rung, numbered from 1, is a line of its own in the guidance |
| Prompt.StepsInGuidance | src/prompt/mod.rs:110-124 | a rung sits on its own line between the heading and the lines after the rungs |
| Prompt.GuidanceEndsWithNote | src/prompt/mod.rs:120-124 | the guidance closes with a blank line and the note on the primary purpose |
| Prompt.BuildPrompt | src/prompt/mod.rs:128-229 | the pushes and the join yield the prompt function: its parts in push order, joined by blank lines |
| Prompt.PromptPartsOpening | src/prompt/mod.rs:147-210 | the prompt has 16 parts with a previous message and 15 without; the first six are the header, format rule, guidance, types, description rule and no-explanation rule, then the previous-message paragraph when there is one |
| Prompt.PromptPartsSections | src/prompt/mod.rs:212-226 | after those come the diff heading, diff body, rule, binary heading, binary summary, rule, structure heading, structure summary and rule |
| Prompt.PromptOpensWithHeader | src/prompt/mod.rs:149-164 | the prompt opens with the header and a blank line |
| Prompt.PromptHoldsInstructions | src/prompt/mod.rs:166-195 | each instruction paragraph stands between blank lines |
| Prompt.PromptHoldsPreviousMessage | src/prompt/mod.rs:197-210 | a previous message gets its own paragraph between blank lines |
| Prompt.PromptHoldsDiffSection | src/prompt/mod.rs:212-218 | the diff heading, the diff or its placeholder, and a rule follow each other |
| Prompt.PromptHoldsBinarySection | src/prompt/mod.rs:220-222 | the binary heading, the summary lines or the placeholder, and a rule follow each other |
| Prompt.PromptClosesWithStructureSection | src/prompt/mod.rs:224-228 | the prompt closes with the structure heading, its summary or placeholder, and a rule |
| Prompt.DiffBodyChoice | src/prompt/mod.rs:213-217 | the diff goes in unchanged unless it is all whitespace, when the placeholder replaces it |
| Prompt.SectionBodyLines | src/prompt/mod.rs:136-145 | a summary section is its placeholder when empty, and otherwise one line per description |
| Prompt.HeaderCount | src/prompt/mod.rs:149-164 | one message gets the one-sentence header; any other count is written in decimal three times and reads back as the count |
| Prompt.ConsistencyCount | src/prompt/mod.rs:175-184 | above one, the count is written twice in the consistency instruction; otherwise the single-type sentence |
| Prompt.LengthBoundsText | src/prompt/mod.rs:3-4 | the bounds read "10 and 72 characters." |
| Prompt.DescriptionRuleBounds | src/prompt/mod.rs:186-192 | the description rule opens with the consistency instruction and closes with the bounds 10 and 72 |
| Prompt.PreviousMessageQuoted | src/prompt/mod.rs:197-209 | the paragraph quotes the previous message and asks for "N variations of it" above one, else "it" |
| Prompt.ZeroSuggestionsWording | src/prompt/mod.rs:149-202 | for zero messages, the header takes the several-messages wording with "0", while the consistency instruction and the previous-message request take the one-message wording |
| Prompt.TypesPartListsTable | src/prompt/mod.rs:170-173 | the types paragraph opens with the "feat" line and holds every type's line |
| Prompt.TypesPartOf | src/prompt/mod.rs:170-173 | the same for any table with a single top-priority entry |
| Prompt.TrimmedListingEnd | src/prompt/mod.rs:172 | trimming a listing ending ")\n" removes only the final line break |
| Prompt.TrimmedListingKeeps | src/prompt/mod.rs:172 | a line of such a listing survives the trimming |

## Left out

- StagedChanges.NextEntry: the slice panic on a lead whose bytes 2 or 3 fall inside a character is modelled as an error (`StatusLeadSplitsCharacter`), not as a panic. git writes an ASCII status pair and a space there, so its reports never reach this case.
- Running git. `execute_git_command_for_summary_bytes` spawns a process. The two reports it returns are parameters of the classifier.
- The HTTP call to the model, the API key read from the environment and JSON decoding (`generate_text`). The decoded candidates are the parameter of the response reader.
- `src/main.rs`, the command-line flow around the core. It is not part of this model.
- The map type. Rust's `HashMap<String, bool>` is a Dafny `map`. Its hashing and iteration order are not modelled, and neither pass depends on them.
- Prompt.BuildPrompt: takes the staged-change summary with its descriptions as `string`. The byte strings Pass B builds are not decoded into text.
- Prompt.FormatCommitTypesForPrompt: the source reads the constant `COMMIT_TYPES`. Here the table is a parameter, and the lemmas about the prompt's types paragraph are stated for the constant table.
- Prompt.BuildPrompt: likewise takes the table as a parameter. The source always uses `COMMIT_TYPES`.
- Prompt.CommitTypeListing: the model does not prove that the table's literal texts are free of line breaks. The one-line-per-type result (`FormatTypesLines`) is therefore stated for tables with that property.
- Ai.ProcessApiResponseCandidates: the nested loops over candidates, parts and lines are split into three methods, one per level, each proved against its own function.
- Counts are `u32` as in the source. The `usize` cast in the cut needs no wrap-around, since `u32` fits in `usize` on the platforms the tool targets.
