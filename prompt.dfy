/**
 * The prompt sent to the model (`build_prompt` in src/prompt/mod.rs). It
 * lists the commit types of a constant table, sorted by priority and then by
 * name, gives a fixed hierarchy for choosing among them, and assembles its
 * paragraphs, the diff and the two change summaries, joined by blank lines.
 */
module Prompt {
  import opened Wrappers
  import opened Ordering
  import opened Text

  // ---------------------------------------------------------------------------
  // The commit-type table
  // ---------------------------------------------------------------------------

  datatype CommitType = CommitType(name: string, description: string, example: string, priority: nat)

  const Feat := CommitType("feat",
    "A new feature or significant functionality addition (e.g., adding new endpoints, UI components, initial project setup).",
    "feat: Implement user authentication via OAuth", 9)
  const Fix := CommitType("fix",
    "A bug fix (e.g., correcting calculation errors, addressing crashes, security vulnerabilities).",
    "fix: Correct off-by-one error in pagination", 8)
  const Perf := CommitType("perf",
    "A code change that improves performance without adding features or fixing bugs.",
    "perf: Optimize image loading by using WebP format", 7)
  const Refactor := CommitType("refactor",
    "A code change that neither fixes a bug nor adds a feature (e.g., renaming variables, improving code structure, reorganizing files).",
    "refactor: Extract user service from main controller", 6)
  const Build := CommitType("build",
    "Changes that affect the build system or external dependencies (e.g., Webpack, NPM, package.json updates).",
    "build: Configure webpack for tree shaking optimization", 5)
  const Ci := CommitType("ci",
    "Changes to CI configuration files and scripts (e.g., GitHub Actions, Travis, deployment pipelines).",
    "ci: Add automated deployment step to GitHub Actions", 5)
  const Test := CommitType("test",
    "Adding missing tests or correcting existing tests without changing application logic.",
    "test: Add unit tests for new payment_processor module", 4)
  const Docs := CommitType("docs",
    "Documentation only changes that don't affect code functionality (e.g., updating README, API docs, comments).",
    "docs: Update README with setup instructions", 3)
  const Style := CommitType("style",
    "Changes that do not affect the meaning of the code (white-space, formatting, missing semi-colons, etc).",
    "style: Format code according to project guidelines", 2)
  const Chore := CommitType("chore",
    "Maintenance tasks, dependency updates, or tooling changes that don't modify application code.",
    "chore: Update ESLint to version 8.50.0", 3)
  const Revert := CommitType("revert",
    "Reverts a previous commit.",
    "revert: Revert commit 'abcdef12' due to critical bug", 8)
  const Readme := CommitType("readme",
    "Specifically for standalone changes to the README file only.",
    "readme: Add contribution guidelines and code of conduct", 2)

  /** `COMMIT_TYPES`, in the order of its declaration. */
  const CommitTypes: seq<CommitType> := [Feat, Fix, Perf, Refactor, Build, Ci, Test, Docs, Style, Chore, Revert, Readme]

  // ---------------------------------------------------------------------------
  // Sorting the table
  // ---------------------------------------------------------------------------

  /** Rust `str` order is the order of code points. */
  function CharRank(c: char): int {
    c as int
  }

  /** The comparator of `sort_by`: higher priority first, then names in ascending order. */
  function TypeLe(a: CommitType, b: CommitType): bool {
    a.priority > b.priority || (a.priority == b.priority && LexLe(a.name, b.name, CharRank))
  }

  lemma TypeLeOrder()
    ensures Total(TypeLe) && Transitive(TypeLe)
  {
    forall a: CommitType, b: CommitType ensures TypeLe(a, b) || TypeLe(b, a) {
      LexLeTotal(a.name, b.name, CharRank);
    }
    forall a: CommitType, b: CommitType, c: CommitType | TypeLe(a, b) && TypeLe(b, c) ensures TypeLe(a, c) {
      if a.priority == b.priority == c.priority {
        LexLeTransitive(a.name, b.name, c.name, CharRank);
      }
    }
  }

  /** `to_vec` followed by `sort_by` with the comparator above. */
  function SortCommitTypes(commitTypes: seq<CommitType>): (r: seq<CommitType>)
    ensures SortedBy(r, TypeLe) && multiset(r) == multiset(commitTypes)
  {
    TypeLeOrder();
    Sort(commitTypes, TypeLe)
  }

  /** Entries that compare equal both ways agree in priority and name. */
  lemma TypeLeBothWays(x: CommitType, y: CommitType)
    requires TypeLe(x, y) && TypeLe(y, x)
    ensures x.priority == y.priority && x.name == y.name
  {
    assert forall c: char, d: char :: CharRank(c) == CharRank(d) ==> c == d;
    LexLeAntisymmetric(x.name, y.name, CharRank);
  }

  lemma TableNamesUnique()
    ensures NamesUnique(CommitTypes)
  {
  }

  lemma FeatHighest()
    ensures |CommitTypes| == 12 && Feat in CommitTypes
    ensures forall t :: t in CommitTypes && t != Feat ==> t.priority < Feat.priority
  {
    assert CommitTypes[0] == Feat;
    HighestAt(CommitTypes, 0);
  }

  /** An entry whose priority is above that of every other position is above every other entry. */
  lemma HighestAt(table: seq<CommitType>, i: nat)
    requires i < |table|
    requires forall k :: 0 <= k < |table| && k != i ==> table[k].priority < table[i].priority
    ensures forall t :: t in table && t != table[i] ==> t.priority < table[i].priority
  {
  }

  /** No two positions of the table hold the same name. */
  predicate NamesUnique(table: seq<CommitType>) {
    forall i, j :: 0 <= i < |table| && 0 <= j < |table| && table[i].name == table[j].name ==> i == j
  }

  /**
   * The order of the list does not depend on the sorting algorithm: in a table
   * whose names differ no two entries compare equal, so exactly one ordering
   * is sorted by the comparator, and `sort_by` (stable or not) yields it.
   */
  lemma SortedOrderUnique(table: seq<CommitType>, listed: seq<CommitType>)
    requires NamesUnique(table)
    requires SortedBy(listed, TypeLe) && multiset(listed) == multiset(table)
    ensures listed == SortCommitTypes(table)
  {
    var sorted := SortCommitTypes(table);
    TypeLeOrder();
    forall x, y | x in sorted && y in sorted && TypeLe(x, y) && TypeLe(y, x)
      ensures x == y
    {
      assert x in multiset(table) && y in multiset(table);
      TypeLeBothWays(x, y);
    }
    SortedPermutationUniqueOn(sorted, listed, TypeLe);
  }

  /** An entry whose priority exceeds every other's heads the list. */
  lemma HighestPriorityFirst(table: seq<CommitType>, top: CommitType)
    requires top in table
    requires forall t :: t in table && t != top ==> t.priority < top.priority
    ensures |SortCommitTypes(table)| == |table|
    ensures SortCommitTypes(table)[0] == top
  {
    var sorted := SortCommitTypes(table);
    TypeLeOrder();
    assert |sorted| == |multiset(sorted)| == |multiset(table)| == |table|;
    assert top in multiset(sorted);
    var k :| 0 <= k < |sorted| && sorted[k] == top;
    assert TypeLe(sorted[0], top) by { if k > 0 { assert TypeLe(sorted[0], sorted[k]); } }
    assert sorted[0] in multiset(table);
  }

  /** The list of the table has one entry per type; its order is the only sorted one, headed by "feat". */
  lemma CommitTypesListed(listed: seq<CommitType>)
    requires SortedBy(listed, TypeLe) && multiset(listed) == multiset(CommitTypes)
    ensures listed == SortCommitTypes(CommitTypes)
    ensures |listed| == 12 && listed[0] == Feat
  {
    TableNamesUnique();
    FeatHighest();
    ListedInOrder(CommitTypes, Feat, listed);
  }

  /** In a table of distinct names whose top priority is held by one entry, any sorted listing is the sorted table, and it opens with that entry. */
  lemma ListedInOrder(table: seq<CommitType>, top: CommitType, listed: seq<CommitType>)
    requires NamesUnique(table) && top in table
    requires forall t :: t in table && t != top ==> t.priority < top.priority
    requires SortedBy(listed, TypeLe) && multiset(listed) == multiset(table)
    ensures listed == SortCommitTypes(table)
    ensures |listed| == |table| && listed[0] == top
  {
    SortedOrderUnique(table, listed);
    HighestPriorityFirst(table, top);
  }

  // ---------------------------------------------------------------------------
  // Listing the table
  // ---------------------------------------------------------------------------

  /** The line of one type, without its line break. */
  function TypeEntry(t: CommitType): string {
    "- " + t.name + ": " + t.description + " (Example: \"" + t.example + "\")"
  }

  /** The text `format_commit_types_for_prompt` builds from some types: their lines, each ended by "\n". */
  function FormatTypes(types: seq<CommitType>): string {
    if |types| == 0 then "" else TypeEntry(types[0]) + "\n" + FormatTypes(types[1..])
  }

  lemma {:induction false} FormatTypesAppend(types: seq<CommitType>, t: CommitType)
    ensures FormatTypes(types + [t]) == FormatTypes(types) + TypeEntry(t) + "\n"
  {
    if |types| == 0 {
      assert types + [t] == [t];
    } else {
      assert (types + [t])[1..] == types[1..] + [t];
      FormatTypesAppend(types[1..], t);
    }
  }

  /**
   * `format_commit_types_for_prompt`: the table sorted, then one line pushed
   * per type. The source reads the constant table; here it is passed in.
   */
  method FormatCommitTypesForPrompt(commitTypes: seq<CommitType>) returns (s: string)
    ensures s == FormatTypes(SortCommitTypes(commitTypes))
  {
    s := "";
    var sortedCommitTypes := SortCommitTypes(commitTypes);
    for i := 0 to |sortedCommitTypes|
      invariant s == FormatTypes(sortedCommitTypes[..i])
    {
      var ct := sortedCommitTypes[i];
      var entry := "- " + ct.name + ": " + ct.description + " (Example: \"" + ct.example + "\")";
      s := s + entry + "\n";
      assert sortedCommitTypes[..i + 1] == sortedCommitTypes[..i] + [ct];
      FormatTypesAppend(sortedCommitTypes[..i], ct);
    }
    assert sortedCommitTypes[..|sortedCommitTypes|] == sortedCommitTypes;
  }

  /** No field of a type holds a line break. */
  predicate SingleLineFields(types: seq<CommitType>) {
    forall k :: 0 <= k < |types| ==> '\n' !in types[k].name && '\n' !in types[k].description && '\n' !in types[k].example
  }

  lemma EntryPlain(t: CommitType)
    requires '\n' !in t.name && '\n' !in t.description && '\n' !in t.example
    ensures '\n' !in TypeEntry(t) && StripCr(TypeEntry(t)) == TypeEntry(t)
  {
  }

  lemma EntryEnd(t: CommitType)
    ensures TypeEntry(t) != "" && TypeEntry(t)[|TypeEntry(t)| - 1] == ')'
  {
  }

  function TypeEntries(types: seq<CommitType>): (r: seq<string>)
    ensures |r| == |types| && forall k :: 0 <= k < |types| ==> r[k] == TypeEntry(types[k])
  {
    seq(|types|, k requires 0 <= k < |types| => TypeEntry(types[k]))
  }

  /** The listing has exactly one line per type, in the order given, and each line reads as that type's entry. */
  lemma {:induction false} FormatTypesLines(types: seq<CommitType>)
    requires SingleLineFields(types)
    ensures Lines(FormatTypes(types)) == TypeEntries(types)
  {
    if |types| > 0 {
      var rest := types[1..];
      assert SingleLineFields(rest) by {
        forall k | 0 <= k < |rest| ensures '\n' !in rest[k].name && '\n' !in rest[k].description && '\n' !in rest[k].example {
          assert rest[k] == types[k + 1];
        }
      }
      FormatTypesLines(rest);
      EntryPlain(types[0]);
      LinesCons(TypeEntry(types[0]), FormatTypes(rest));
      assert TypeEntries(types) == [TypeEntry(types[0])] + TypeEntries(rest);
    }
  }

  /** The listing is the entries joined by "\n", with a final "\n". */
  lemma {:induction false} FormatTypesJoined(types: seq<CommitType>)
    requires types != []
    ensures FormatTypes(types) == JoinWith(TypeEntries(types), "\n") + "\n"
  {
    if |types| > 1 {
      var entries := TypeEntries(types);
      var rest := types[1..];
      FormatTypesJoined(rest);
      assert entries[1..] == TypeEntries(rest);
      var jr := JoinWith(TypeEntries(rest), "\n");
      assert JoinWith(entries, "\n") == entries[0] + "\n" + jr;
      ConcatAssoc(entries[0] + "\n", jr, "\n");
    }
  }

  /** So the listing ends with ")\n", the end of the last entry and its line break. */
  lemma FormatTypesEnd(types: seq<CommitType>)
    requires types != []
    ensures EndsWith(FormatTypes(types), ")\n")
  {
    var entries := TypeEntries(types);
    FormatTypesJoined(types);
    EntryEnd(types[|types| - 1]);
    JoinLast(entries, "\n");
    EndsWithCharBreak(JoinWith(entries, "\n"), ')');
  }

  /** `trim_end` removes only the final "\n" of the listing, whose last entry ends with ')'. */
  lemma TrimmedListing(types: seq<CommitType>)
    requires types != []
    ensures TrimEnd(FormatTypes(types)) == JoinWith(TypeEntries(types), "\n")
  {
    var j := JoinWith(TypeEntries(types), "\n");
    FormatTypesJoined(types);
    EntryEnd(types[|types| - 1]);
    JoinLast(TypeEntries(types), "\n");
    var f := j + "\n";
    assert f[..|f| - 1] == j;
  }

  /** Every type of a table has its entry as a line of the listing of the sorted table. */
  lemma EveryTypeListed(table: seq<CommitType>, t: CommitType)
    requires SingleLineFields(table) && t in table
    ensures TypeEntry(t) in Lines(FormatTypes(SortCommitTypes(table)))
  {
    var sorted := SortCommitTypes(table);
    assert t in multiset(sorted);
    var k :| 0 <= k < |sorted| && sorted[k] == t;
    SortedSingleLine(table);
    FormatTypesLines(sorted);
    assert TypeEntries(sorted)[k] == TypeEntry(t);
  }

  /**
   * The listing of the table: one line per type, the first one that of
   * "feat", the last one ended by ")\n", and every type's line somewhere in it.
   */
  lemma CommitTypeListing()
    ensures var listing := FormatTypes(SortCommitTypes(CommitTypes));
      && StartsWith(listing, TypeEntry(Feat) + "\n")
      && EndsWith(listing, ")\n")
      && |SortCommitTypes(CommitTypes)| == 12
      && forall t :: t in CommitTypes ==> Contains(listing, TypeEntry(t) + "\n")
  {
    FeatHighest();
    ListingOf(CommitTypes, Feat);
  }

  /** The listing of a table whose highest priority is held by `top` alone. */
  lemma ListingOf(table: seq<CommitType>, top: CommitType)
    requires top in table
    requires forall t :: t in table && t != top ==> t.priority < top.priority
    ensures var listing := FormatTypes(SortCommitTypes(table));
      && StartsWith(listing, TypeEntry(top) + "\n")
      && EndsWith(listing, ")\n")
      && |SortCommitTypes(table)| == |table|
      && forall t :: t in table ==> Contains(listing, TypeEntry(t) + "\n")
  {
    var sorted := SortCommitTypes(table);
    HighestPriorityFirst(table, top);
    FormatTypesEnd(sorted);
    var f := FormatTypes(sorted);
    assert f == TypeEntry(top) + "\n" + FormatTypes(sorted[1..]);
    assert f[..|TypeEntry(top) + "\n"|] == TypeEntry(top) + "\n";
    forall t | t in table ensures Contains(f, TypeEntry(t) + "\n") {
      assert t in multiset(sorted);
      var k :| 0 <= k < |sorted| && sorted[k] == t;
      FormatTypesContains(sorted, k);
    }
  }

  /** The listing holds the line of each type it lists. */
  lemma {:induction false} FormatTypesContains(types: seq<CommitType>, k: nat)
    requires k < |types|
    ensures Contains(FormatTypes(types), TypeEntry(types[k]) + "\n")
  {
    var line := TypeEntry(types[k]) + "\n";
    var rest := FormatTypes(types[1..]);
    assert FormatTypes(types) == line + rest || k > 0;
    if k == 0 {
      ConcatEnds(line, rest);
      StartsWithContains(line + rest, line);
    } else {
      FormatTypesContains(types[1..], k - 1);
      assert types[1..][k - 1] == types[k];
      ContainsAfterPrefix(TypeEntry(types[0]) + "\n", rest, line);
    }
  }

  lemma SortedSingleLine(table: seq<CommitType>)
    requires SingleLineFields(table)
    ensures SingleLineFields(SortCommitTypes(table))
  {
    var sorted := SortCommitTypes(table);
    forall i | 0 <= i < |sorted| ensures '\n' !in sorted[i].name && '\n' !in sorted[i].description && '\n' !in sorted[i].example {
      assert sorted[i] in multiset(table);
      var j :| 0 <= j < |table| && table[j] == sorted[i];
    }
  }

  // ---------------------------------------------------------------------------
  // The type-selection hierarchy
  // ---------------------------------------------------------------------------

  /** One rung of the hierarchy: in this situation, use this type. */
  datatype HierarchyStep = HierarchyStep(situation: string, typeName: string)

  const HierarchySteps: seq<HierarchyStep> := [
    HierarchyStep("creating new functionality, features, or initial project setup", "feat"),
    HierarchyStep("fixing bugs, errors, or security issues", "fix"),
    HierarchyStep("improving performance without adding features", "perf"),
    HierarchyStep("restructuring code without changing behavior", "refactor"),
    HierarchyStep("changing build configuration or dependencies", "build"),
    HierarchyStep("modifying CI/CD pipelines", "ci"),
    HierarchyStep("only adding/updating tests", "test"),
    HierarchyStep("only updating documentation", "docs"),
    HierarchyStep("only formatting/style changes", "style"),
    HierarchyStep("maintenance tasks or dependency updates", "chore")
  ]

  const GuidanceHeading: string := "CRITICAL: Type Selection Hierarchy - When determining the commit type, follow this decision process:"

  const PrimaryPurposeNote: string :=
    "IMPORTANT: Even if individual files (like README.md, package.json, etc.) are part of a larger change, " +
    "choose the type that represents the PRIMARY PURPOSE of the entire commit. " +
    "For example: Initial project setup that includes README.md, package.json, and source files should be 'feat', " +
    "not 'docs' or 'chore', because the primary purpose is creating new functionality."

  /** The line of the rung numbered `number`, as "3. If … → use 'perf'". */
  function StepLine(number: nat, step: HierarchyStep): string {
    Decimal(number) + ". If " + step.situation + " \U{2192} use '" + step.typeName + "'"
  }

  /** The numbered rungs, from 1. */
  function StepLines(steps: seq<HierarchyStep>, first: nat): (r: seq<string>)
    ensures |r| == |steps| && forall k :: 0 <= k < |steps| ==> r[k] == StepLine(first + k, steps[k])
  {
    seq(|steps|, k requires 0 <= k < |steps| => StepLine(first + k, steps[k]))
  }

  /** The lines of the guidance: the heading, the ten rungs, a blank line, the note on the primary purpose. */
  function GuidanceLines(): seq<string> {
    [GuidanceHeading] + StepLines(HierarchySteps, 1) + ["", PrimaryPurposeNote]
  }

  /** `build_type_selection_guidance`. */
  function TypeSelectionGuidance(): string {
    JoinWith(GuidanceLines(), "\n")
  }

  /** The hierarchy has ten rungs, each naming a type of the table. */
  lemma HierarchyNamesTableTypes()
    ensures |HierarchySteps| == 10
    ensures forall k :: 0 <= k < |HierarchySteps| ==> exists t :: t in CommitTypes && t.name == HierarchySteps[k].typeName
  {
    var named := [Feat, Fix, Perf, Refactor, Build, Ci, Test, Docs, Style, Chore];
    forall k | 0 <= k < |HierarchySteps|
      ensures exists t :: t in CommitTypes && t.name == HierarchySteps[k].typeName
    {
      assert named[k] in CommitTypes && named[k].name == HierarchySteps[k].typeName;
    }
  }

  /** The rungs name different types; "revert" and "readme" are on none of them. */
  lemma HierarchyTypesDistinct()
    ensures forall i, j :: 0 <= i < j < |HierarchySteps| ==> HierarchySteps[i].typeName != HierarchySteps[j].typeName
    ensures forall k :: 0 <= k < |HierarchySteps| ==> HierarchySteps[k].typeName != Revert.name && HierarchySteps[k].typeName != Readme.name
  {
  }

  /** The guidance opens with its heading on a line of its own. */
  lemma GuidanceHeadingFirst()
    ensures StartsWith(TypeSelectionGuidance(), GuidanceHeading + "\n")
  {
    JoinWithFirst(GuidanceLines(), "\n");
  }

  /** Every rung, numbered from 1, is a line of the guidance. */
  lemma GuidanceHoldsSteps()
    ensures forall k :: 0 <= k < |HierarchySteps| ==> Contains(TypeSelectionGuidance(), "\n" + StepLine(k + 1, HierarchySteps[k]) + "\n")
  {
    forall k | 0 <= k < |HierarchySteps|
      ensures Contains(TypeSelectionGuidance(), "\n" + StepLine(k + 1, HierarchySteps[k]) + "\n")
    {
      StepsInGuidance(GuidanceHeading, HierarchySteps, ["", PrimaryPurposeNote], k);
    }
  }

  /** A rung sits on a line of its own between the heading and the lines after the rungs. */
  lemma StepsInGuidance(heading: string, steps: seq<HierarchyStep>, after: seq<string>, k: nat)
    requires k < |steps| && after != []
    ensures Contains(JoinWith([heading] + StepLines(steps, 1) + after, "\n"), "\n" + StepLine(k + 1, steps[k]) + "\n")
  {
    var lines := [heading] + StepLines(steps, 1) + after;
    assert lines[k + 1] == StepLine(k + 1, steps[k]);
    JoinWithContainsLine(lines, "\n", k + 1);
  }

  /** The guidance ends with the note on the primary purpose, after a blank line. */
  lemma GuidanceEndsWithNote()
    ensures EndsWith(TypeSelectionGuidance(), "\n" + ("" + "\n" + PrimaryPurposeNote))
  {
    var lines := GuidanceLines();
    JoinWithTail(lines, "\n", 11);
    assert lines[11..] == ["", PrimaryPurposeNote];
    assert JoinWith(["", PrimaryPurposeNote], "\n") == "" + "\n" + PrimaryPurposeNote;
  }

  // ---------------------------------------------------------------------------
  // The prompt
  // ---------------------------------------------------------------------------

  const MinCommitDescriptionChars: nat := 10
  const MaxCommitDescriptionChars: nat := 72

  /** The summary of the staged changes, its descriptions as text. */
  datatype ChangesSummary = ChangesSummary(binaryFileChanges: seq<string>, structureChanges: seq<string>)

  const NoBinaryChanges: string := "No binary file changes detected."
  const NoStructureChanges: string := "No folder structure changes detected."
  const NoTextualDiff: string := "No textual diff."

  const HeaderIntro: string := "Analyze the following code changes and repository structure modifications."
  const SingleHeader: string := HeaderIntro + " Generate 1 Git commit message."

  /** The fixed text of the opening paragraph for several messages, around the three places the count goes. */
  const MultiTaskOpening: string := " Your task is to generate "
  const MultiTaskEach: string := " *alternative* Git commit messages. Each of these "
  const MultiTaskVariations: string :=
    " messages must be a complete and valid commit message that summarizes *all* the changes provided below. " +
    "They should represent different ways of phrasing a *single* commit for the *entirety* of these changes, " +
    "offering variations in wording or emphasis, but all pertaining to the same overall update. " +
    "Do not generate messages for individual files or sub-tasks within the diff if they are part of the same logical change. " +
    "\n\nIMPORTANT FOR MULTIPLE VARIATIONS: All "
  const MultiTaskClosing: string :=
    " variations should use the SAME commit type (the most appropriate one for the entire changeset). " +
    "Only vary the description part to provide different phrasings of the same conceptual change."

  /** The opening paragraph when more (or fewer) than one message is asked for; `count` is the number in decimal. */
  function MultiHeader(count: string): string {
    HeaderIntro + MultiTaskOpening + count + MultiTaskEach + count + MultiTaskVariations + count + MultiTaskClosing
  }

  function Header(numSuggestions: u32): string {
    if numSuggestions == 1 then SingleHeader else MultiHeader(Decimal(numSuggestions as nat))
  }

  const FormatRule: string := "Each message MUST follow this format: <type>: <description>"
  const TypesIntro: string := "Available <type>s, their descriptions, and EXAMPLES of their use are:\n"

  const ConsistencyOpening: string := "For the "
  const ConsistencyMiddle: string :=
    " variations requested, determine the single most appropriate <type> that best describes the overall changes, then create "
  const ConsistencyClosing: string :=
    " different descriptions using that same type. The variations should differ in wording, emphasis, or perspective, " +
    "but should all use the same commit type that represents the primary nature of the entire changeset."
  const SingleConsistency: string := "Choose the <type> that best describes the overall changes"

  function ConsistencyInstruction(numSuggestions: u32): string {
    if numSuggestions > 1 then
      var count := Decimal(numSuggestions as nat);
      ConsistencyOpening + count + ConsistencyMiddle + count + ConsistencyClosing
    else SingleConsistency
  }

  const LengthRuleIntro: string :=
    ". Use the provided examples and hierarchy guidance above to ensure correct type usage.\n" +
    "The <description> should be concise, start with a verb in the imperative mood if possible, and be between "

  function DescriptionRule(numSuggestions: u32): string {
    ConsistencyInstruction(numSuggestions) + LengthRuleIntro +
    Decimal(MinCommitDescriptionChars) + " and " + Decimal(MaxCommitDescriptionChars) + " characters."
  }

  const NoExplanation: string := "Do not include any other explanatory text, just the commit message(s)."

  function Variations(numSuggestions: u32): string {
    if numSuggestions > 1 then Decimal(numSuggestions as nat) + " variations of it" else "it"
  }

  const PreviousMessageOpening: string := "The previous commit message was: '"

  const PreviousMessageRequest: string := "'. Please generate a new, improved message (or "
  const PreviousMessageClosing: string :=
    " if multiple are requested) based on the changes, " +
    "considering why the previous one might have been suboptimal. Ensure the <type> is appropriate for the changes, " +
    "guided by the hierarchy and examples provided above. If generating multiple variations, they should all use the same improved type."

  function PreviousMessageParagraph(previousMessage: string, numSuggestions: u32): string {
    PreviousMessageOpening + previousMessage + PreviousMessageRequest + Variations(numSuggestions) + PreviousMessageClosing
  }

  const DiffHeading: string := "Diff:\n\n---"
  const Rule: string := "---"
  const BinaryHeading: string := "Binary file changes:"
  const StructureHeading: string := "Folder structure changes:"

  /** A summary section: its placeholder when there is nothing to say, else the descriptions one per line. */
  function SectionBody(entries: seq<string>, placeholder: string): string {
    if |entries| == 0 then placeholder else JoinWith(entries, "\n")
  }

  function DiffBody(diffContent: string): string {
    if Trim(diffContent) == "" then NoTextualDiff else diffContent
  }

  /** The listing of the table as the prompt quotes it. */
  function TypesPart(commitTypes: seq<CommitType>): string {
    TypesIntro + TrimEnd(FormatTypes(SortCommitTypes(commitTypes)))
  }

  /** The paragraphs before the optional previous-message paragraph. */
  function OpeningParts(commitTypes: seq<CommitType>, numSuggestions: u32): seq<string> {
    [Header(numSuggestions)] + [FormatRule] + [TypeSelectionGuidance()] + [TypesPart(commitTypes)] +
    [DescriptionRule(numSuggestions)] + [NoExplanation]
  }

  /**
   * The parts of the prompt in the order they are pushed: the opening, the
   * previous-message paragraph when there is a previous message, then the
   * diff, binary-changes and structure-changes sections, each closed by a rule.
   */
  function PromptParts(commitTypes: seq<CommitType>, diffContent: string, changesSummary: ChangesSummary, numSuggestions: u32, previousMessage: Option<string>): seq<string> {
    var opening := OpeningParts(commitTypes, numSuggestions);
    var withPrevious := if previousMessage.Some? then opening + [PreviousMessageParagraph(previousMessage.value, numSuggestions)] else opening;
    withPrevious + [DiffHeading] + [DiffBody(diffContent)] + [Rule] +
    [BinaryHeading] + [SectionBody(changesSummary.binaryFileChanges, NoBinaryChanges)] + [Rule] +
    [StructureHeading] + [SectionBody(changesSummary.structureChanges, NoStructureChanges)] + [Rule]
  }

  function Prompt(commitTypes: seq<CommitType>, diffContent: string, changesSummary: ChangesSummary, numSuggestions: u32, previousMessage: Option<string>): string {
    JoinWith(PromptParts(commitTypes, diffContent, changesSummary, numSuggestions, previousMessage), "\n\n")
  }

  /** `build_prompt`: the parts pushed one by one, then joined by blank lines. */
  method BuildPrompt(commitTypes: seq<CommitType>, diffContent: string, changesSummary: ChangesSummary, numSuggestions: u32, previousMessage: Option<string>)
    returns (prompt: string)
    ensures prompt == Prompt(commitTypes, diffContent, changesSummary, numSuggestions, previousMessage)
  {
    var commitTypesFormatted := FormatCommitTypesForPrompt(commitTypes);
    var typeSelectionGuidance := TypeSelectionGuidance();
    var binaryChangesSummaryStr := if |changesSummary.binaryFileChanges| == 0 then NoBinaryChanges
      else JoinWith(changesSummary.binaryFileChanges, "\n");
    var folderStructureChangesSummaryStr := if |changesSummary.structureChanges| == 0 then NoStructureChanges
      else JoinWith(changesSummary.structureChanges, "\n");

    var promptParts: seq<string> := [];
    if numSuggestions == 1 {
      promptParts := [SingleHeader];
    } else {
      promptParts := [MultiHeader(Decimal(numSuggestions as nat))];
    }
    assert promptParts == [Header(numSuggestions)];
    promptParts := promptParts + [FormatRule];
    promptParts := promptParts + [typeSelectionGuidance];
    promptParts := promptParts + [TypesIntro + TrimEnd(commitTypesFormatted)];
    var consistencyInstruction := ConsistencyInstruction(numSuggestions);
    promptParts := promptParts + [consistencyInstruction + LengthRuleIntro +
      Decimal(MinCommitDescriptionChars) + " and " + Decimal(MaxCommitDescriptionChars) + " characters."];
    promptParts := promptParts + [NoExplanation];
    assert promptParts == OpeningParts(commitTypes, numSuggestions);
    if previousMessage.Some? {
      promptParts := promptParts + [PreviousMessageParagraph(previousMessage.value, numSuggestions)];
    }
    promptParts := promptParts + [DiffHeading];
    promptParts := promptParts + [if Trim(diffContent) == "" then NoTextualDiff else diffContent];
    promptParts := promptParts + [Rule];
    promptParts := promptParts + [BinaryHeading];
    promptParts := promptParts + [binaryChangesSummaryStr];
    promptParts := promptParts + [Rule];
    promptParts := promptParts + [StructureHeading];
    promptParts := promptParts + [folderStructureChangesSummaryStr];
    promptParts := promptParts + [Rule];
    assert promptParts == PromptParts(commitTypes, diffContent, changesSummary, numSuggestions, previousMessage);
    prompt := JoinWith(promptParts, "\n\n");
  }

  // ---------------------------------------------------------------------------
  // Properties of the prompt
  // ---------------------------------------------------------------------------

  /**
   * The paragraphs of the prompt: six opening ones, the previous-message
   * paragraph when there is a previous message, then the diff, binary-changes
   * and structure-changes sections of three paragraphs each.
   */
  lemma PromptPartsOpening(commitTypes: seq<CommitType>, diffContent: string, changesSummary: ChangesSummary, numSuggestions: u32, previousMessage: Option<string>)
    ensures var parts := PromptParts(commitTypes, diffContent, changesSummary, numSuggestions, previousMessage);
      && |parts| == (if previousMessage.Some? then 16 else 15)
      && parts[0] == Header(numSuggestions) && parts[1] == FormatRule && parts[2] == TypeSelectionGuidance()
      && parts[3] == TypesPart(commitTypes) && parts[4] == DescriptionRule(numSuggestions) && parts[5] == NoExplanation
      && (previousMessage.Some? ==> parts[6] == PreviousMessageParagraph(previousMessage.value, numSuggestions))
  {
    var opening := OpeningParts(commitTypes, numSuggestions);
    SixParts(Header(numSuggestions), FormatRule, TypeSelectionGuidance(), TypesPart(commitTypes), DescriptionRule(numSuggestions), NoExplanation);
    if previousMessage.Some? {
      var para := PreviousMessageParagraph(previousMessage.value, numSuggestions);
      AppendOne(opening, para);
      NineParts(opening + [para], DiffHeading, DiffBody(diffContent), Rule,
        BinaryHeading, SectionBody(changesSummary.binaryFileChanges, NoBinaryChanges), Rule,
        StructureHeading, SectionBody(changesSummary.structureChanges, NoStructureChanges), Rule);
    } else {
      NineParts(opening, DiffHeading, DiffBody(diffContent), Rule,
        BinaryHeading, SectionBody(changesSummary.binaryFileChanges, NoBinaryChanges), Rule,
        StructureHeading, SectionBody(changesSummary.structureChanges, NoStructureChanges), Rule);
    }
  }

  /** The three closing sections, after the opening and the previous-message paragraph. */
  lemma PromptPartsSections(commitTypes: seq<CommitType>, diffContent: string, changesSummary: ChangesSummary, numSuggestions: u32, previousMessage: Option<string>)
    ensures var parts := PromptParts(commitTypes, diffContent, changesSummary, numSuggestions, previousMessage);
      var o := if previousMessage.Some? then 7 else 6;
      && |parts| == o + 9
      && parts[o] == DiffHeading && parts[o + 1] == DiffBody(diffContent) && parts[o + 2] == Rule
      && parts[o + 3] == BinaryHeading && parts[o + 4] == SectionBody(changesSummary.binaryFileChanges, NoBinaryChanges)
      && parts[o + 5] == Rule
      && parts[o + 6] == StructureHeading && parts[o + 7] == SectionBody(changesSummary.structureChanges, NoStructureChanges)
      && parts[o + 8] == Rule
  {
    var opening := OpeningParts(commitTypes, numSuggestions);
    SixParts(Header(numSuggestions), FormatRule, TypeSelectionGuidance(), TypesPart(commitTypes), DescriptionRule(numSuggestions), NoExplanation);
    var w := if previousMessage.Some? then opening + [PreviousMessageParagraph(previousMessage.value, numSuggestions)] else opening;
    NineParts(w, DiffHeading, DiffBody(diffContent), Rule,
      BinaryHeading, SectionBody(changesSummary.binaryFileChanges, NoBinaryChanges), Rule,
      StructureHeading, SectionBody(changesSummary.structureChanges, NoStructureChanges), Rule);
  }

  lemma SixParts(a0: string, a1: string, a2: string, a3: string, a4: string, a5: string)
    ensures var p := [a0] + [a1] + [a2] + [a3] + [a4] + [a5];
      |p| == 6 && p[0] == a0 && p[1] == a1 && p[2] == a2 && p[3] == a3 && p[4] == a4 && p[5] == a5
  {
  }

  lemma AppendOne(w: seq<string>, a: string)
    ensures |w + [a]| == |w| + 1 && (w + [a])[|w|] == a
    ensures forall k :: 0 <= k < |w| ==> (w + [a])[k] == w[k]
  {
  }

  lemma NineParts(w: seq<string>, a0: string, a1: string, a2: string, a3: string, a4: string, a5: string, a6: string, a7: string, a8: string)
    ensures var p := w + [a0] + [a1] + [a2] + [a3] + [a4] + [a5] + [a6] + [a7] + [a8];
      var o := |w|;
      && |p| == o + 9
      && (forall k :: 0 <= k < o ==> p[k] == w[k])
      && p[o] == a0 && p[o + 1] == a1 && p[o + 2] == a2 && p[o + 3] == a3 && p[o + 4] == a4
      && p[o + 5] == a5 && p[o + 6] == a6 && p[o + 7] == a7 && p[o + 8] == a8
  {
  }

  /** The prompt opens with the header paragraph and a blank line. */
  lemma PromptOpensWithHeader(commitTypes: seq<CommitType>, diffContent: string, changesSummary: ChangesSummary, numSuggestions: u32, previousMessage: Option<string>)
    ensures StartsWith(Prompt(commitTypes, diffContent, changesSummary, numSuggestions, previousMessage), Header(numSuggestions) + "\n\n")
  {
    var parts := PromptParts(commitTypes, diffContent, changesSummary, numSuggestions, previousMessage);
    PromptPartsOpening(commitTypes, diffContent, changesSummary, numSuggestions, previousMessage);
    JoinWithFirst(parts, "\n\n");
  }

  /** Each instruction paragraph stands between blank lines in the prompt. */
  lemma PromptHoldsInstructions(commitTypes: seq<CommitType>, diffContent: string, changesSummary: ChangesSummary, numSuggestions: u32, previousMessage: Option<string>)
    ensures var prompt := Prompt(commitTypes, diffContent, changesSummary, numSuggestions, previousMessage);
      && Contains(prompt, "\n\n" + FormatRule + "\n\n")
      && Contains(prompt, "\n\n" + TypeSelectionGuidance() + "\n\n")
      && Contains(prompt, "\n\n" + TypesPart(commitTypes) + "\n\n")
      && Contains(prompt, "\n\n" + DescriptionRule(numSuggestions) + "\n\n")
      && Contains(prompt, "\n\n" + NoExplanation + "\n\n")
  {
    var parts := PromptParts(commitTypes, diffContent, changesSummary, numSuggestions, previousMessage);
    PromptPartsOpening(commitTypes, diffContent, changesSummary, numSuggestions, previousMessage);
    JoinWithContainsLine(parts, "\n\n", 1);
    JoinWithContainsLine(parts, "\n\n", 2);
    JoinWithContainsLine(parts, "\n\n", 3);
    JoinWithContainsLine(parts, "\n\n", 4);
    JoinWithContainsLine(parts, "\n\n", 5);
  }

  /** A previous message gets its own paragraph, between blank lines. */
  lemma PromptHoldsPreviousMessage(commitTypes: seq<CommitType>, diffContent: string, changesSummary: ChangesSummary, numSuggestions: u32, previousMessage: string)
    ensures Contains(Prompt(commitTypes, diffContent, changesSummary, numSuggestions, Some(previousMessage)),
      "\n\n" + PreviousMessageParagraph(previousMessage, numSuggestions) + "\n\n")
  {
    var parts := PromptParts(commitTypes, diffContent, changesSummary, numSuggestions, Some(previousMessage));
    PromptPartsOpening(commitTypes, diffContent, changesSummary, numSuggestions, Some(previousMessage));
    JoinWithContainsLine(parts, "\n\n", 6);
  }

  /** The diff section: its heading, the diff (or the placeholder), and a rule, separated by blank lines. */
  lemma PromptHoldsDiffSection(commitTypes: seq<CommitType>, diffContent: string, changesSummary: ChangesSummary, numSuggestions: u32, previousMessage: Option<string>)
    ensures Contains(Prompt(commitTypes, diffContent, changesSummary, numSuggestions, previousMessage),
      DiffHeading + "\n\n" + DiffBody(diffContent) + "\n\n" + Rule)
  {
    var parts := PromptParts(commitTypes, diffContent, changesSummary, numSuggestions, previousMessage);
    PromptPartsSections(commitTypes, diffContent, changesSummary, numSuggestions, previousMessage);
    JoinWithContains(parts, "\n\n", if previousMessage.Some? then 7 else 6);
  }

  /** The binary-changes section: its heading, the summary lines (or the placeholder), and a rule. */
  lemma PromptHoldsBinarySection(commitTypes: seq<CommitType>, diffContent: string, changesSummary: ChangesSummary, numSuggestions: u32, previousMessage: Option<string>)
    ensures Contains(Prompt(commitTypes, diffContent, changesSummary, numSuggestions, previousMessage),
      BinaryHeading + "\n\n" + SectionBody(changesSummary.binaryFileChanges, NoBinaryChanges) + "\n\n" + Rule)
  {
    var parts := PromptParts(commitTypes, diffContent, changesSummary, numSuggestions, previousMessage);
    PromptPartsSections(commitTypes, diffContent, changesSummary, numSuggestions, previousMessage);
    JoinWithContains(parts, "\n\n", if previousMessage.Some? then 10 else 9);
  }

  /** The prompt closes with the structure-changes section and its rule. */
  lemma PromptClosesWithStructureSection(commitTypes: seq<CommitType>, diffContent: string, changesSummary: ChangesSummary, numSuggestions: u32, previousMessage: Option<string>)
    ensures EndsWith(Prompt(commitTypes, diffContent, changesSummary, numSuggestions, previousMessage),
      "\n\n" + StructureHeading + "\n\n" + SectionBody(changesSummary.structureChanges, NoStructureChanges) + "\n\n" + Rule)
  {
    var parts := PromptParts(commitTypes, diffContent, changesSummary, numSuggestions, previousMessage);
    PromptPartsSections(commitTypes, diffContent, changesSummary, numSuggestions, previousMessage);
    JoinWithLastThree(parts, "\n\n");
  }

  /** The diff goes in as it is unless it is all whitespace, when the placeholder goes in its place. */
  lemma DiffBodyChoice(diffContent: string)
    ensures AllWhitespace(diffContent) ==> DiffBody(diffContent) == NoTextualDiff
    ensures !AllWhitespace(diffContent) ==> DiffBody(diffContent) == diffContent
  {
    TrimEmpty(diffContent);
  }

  /**
   * A summary section holds the placeholder when there are no entries, and
   * otherwise one line per entry when no entry breaks a line.
   */
  lemma SectionBodyLines(entries: seq<string>, placeholder: string)
    ensures entries == [] ==> SectionBody(entries, placeholder) == placeholder
    ensures (entries != [] && (forall k :: 0 <= k < |entries| ==> '\n' !in entries[k] && !EndsWith(entries[k], "\r"))
      && entries[|entries| - 1] != "") ==> Lines(SectionBody(entries, placeholder)) == entries
  {
    if entries != [] && (forall k :: 0 <= k < |entries| ==> '\n' !in entries[k] && !EndsWith(entries[k], "\r"))
      && entries[|entries| - 1] != "" {
      LinesOfJoin(entries);
    }
  }

  /**
   * The header: a single message gets the one-sentence header; any other
   * count is written out in decimal where the source formats it, and reads
   * back as that count.
   */
  lemma HeaderCount(numSuggestions: u32)
    ensures StartsWith(Header(numSuggestions), HeaderIntro)
    ensures numSuggestions == 1 ==> Header(numSuggestions) == SingleHeader
    ensures numSuggestions != 1 ==>
      var count := Decimal(numSuggestions as nat);
      && StartsWith(Header(numSuggestions), HeaderIntro + MultiTaskOpening + count + MultiTaskEach + count + MultiTaskVariations + count)
      && DecimalValue(count) == numSuggestions as nat
  {
    var h := Header(numSuggestions);
    if numSuggestions != 1 {
      var count := Decimal(numSuggestions as nat);
      DecimalRoundTrip(numSuggestions as nat);
      var front := HeaderIntro + MultiTaskOpening + count + MultiTaskEach + count + MultiTaskVariations + count;
      ConcatEnds(front, MultiTaskClosing);
      StartsWithShorter(h, HeaderIntro + MultiTaskOpening + count + MultiTaskEach + count + MultiTaskVariations, count);
      StartsWithShorter(h, HeaderIntro + MultiTaskOpening + count + MultiTaskEach + count, MultiTaskVariations);
      StartsWithShorter(h, HeaderIntro + MultiTaskOpening + count + MultiTaskEach, count);
      StartsWithShorter(h, HeaderIntro + MultiTaskOpening + count, MultiTaskEach);
      StartsWithShorter(h, HeaderIntro + MultiTaskOpening, count);
      StartsWithShorter(h, HeaderIntro, MultiTaskOpening);
    } else {
      ConcatEnds(HeaderIntro, " Generate 1 Git commit message.");
    }
  }

  /** Several messages are asked to share one type, with the count written twice; otherwise one type is asked for. */
  lemma ConsistencyCount(numSuggestions: u32)
    ensures numSuggestions > 1 ==>
      var count := Decimal(numSuggestions as nat);
      StartsWith(ConsistencyInstruction(numSuggestions), ConsistencyOpening + count + ConsistencyMiddle + count)
    ensures numSuggestions <= 1 ==> ConsistencyInstruction(numSuggestions) == SingleConsistency
  {
    if numSuggestions > 1 {
      var count := Decimal(numSuggestions as nat);
      var c := ConsistencyInstruction(numSuggestions);
      var front := ConsistencyOpening + count + ConsistencyMiddle + count;
      assert c == front + ConsistencyClosing;
      assert c[..|front|] == front;
    }
  }

  /** The bounds as the description rule writes them. */
  lemma LengthBoundsText()
    ensures Decimal(MinCommitDescriptionChars) + " and " + Decimal(MaxCommitDescriptionChars) + " characters." == "10 and 72 characters."
  {
    assert Decimal(MinCommitDescriptionChars) == "10";
    assert Decimal(MaxCommitDescriptionChars) == "72";
  }

  /** The description rule opens with the consistency instruction and closes with the length bounds 10 and 72. */
  lemma DescriptionRuleBounds(numSuggestions: u32)
    ensures StartsWith(DescriptionRule(numSuggestions), ConsistencyInstruction(numSuggestions) + LengthRuleIntro)
    ensures EndsWith(DescriptionRule(numSuggestions), "10 and 72 characters.")
  {
    var front := ConsistencyInstruction(numSuggestions) + LengthRuleIntro;
    var min := Decimal(MinCommitDescriptionChars);
    var max := Decimal(MaxCommitDescriptionChars);
    LengthBoundsText();
    ConcatEnds(front, min);
    EndsWithAppend(front + min, min, " and ");
    EndsWithAppend(front + min + " and ", min + " and ", max);
    EndsWithAppend(front + min + " and " + max, min + " and " + max, " characters.");
    StartsWithAppend(front + min, front, " and ");
    StartsWithAppend(front + min + " and ", front, max);
    StartsWithAppend(front + min + " and " + max, front, " characters.");
  }

  /**
   * The previous-message paragraph quotes the message, and asks for the
   * count of variations when more than one message is asked for.
   */
  lemma PreviousMessageQuoted(previousMessage: string, numSuggestions: u32)
    ensures StartsWith(PreviousMessageParagraph(previousMessage, numSuggestions), PreviousMessageOpening + previousMessage + PreviousMessageRequest)
    ensures Contains(PreviousMessageParagraph(previousMessage, numSuggestions),
      PreviousMessageRequest + Variations(numSuggestions) + PreviousMessageClosing)
    ensures numSuggestions > 1 ==> Variations(numSuggestions) == Decimal(numSuggestions as nat) + " variations of it"
    ensures numSuggestions <= 1 ==> Variations(numSuggestions) == "it"
  {
    var lead := PreviousMessageOpening + previousMessage;
    var front := lead + PreviousMessageRequest;
    var v := Variations(numSuggestions);
    ConcatEnds(front, v);
    StartsWithAppend(front + v, front, PreviousMessageClosing);
    ConcatContainsTail(lead, PreviousMessageRequest, v, PreviousMessageClosing);
  }

  /**
   * No messages asked for: the header takes the branch for several messages
   * and writes the count 0, while the consistency instruction and the
   * previous-message paragraph take the branch for one.
   */
  lemma ZeroSuggestionsWording()
    ensures StartsWith(Header(0), HeaderIntro + MultiTaskOpening + "0" + MultiTaskEach)
    ensures ConsistencyInstruction(0) == SingleConsistency
    ensures Variations(0) == "it"
  {
    HeaderCount(0);
    var h := Header(0);
    var count := Decimal(0);
    assert count == "0";
    StartsWithShorter(h, HeaderIntro + MultiTaskOpening + count + MultiTaskEach + count + MultiTaskVariations, count);
    StartsWithShorter(h, HeaderIntro + MultiTaskOpening + count + MultiTaskEach + count, MultiTaskVariations);
    StartsWithShorter(h, HeaderIntro + MultiTaskOpening + count + MultiTaskEach, count);
  }

  /** The types paragraph of the prompt: every type of the table has its line there, and "feat" comes first. */
  lemma TypesPartListsTable()
    ensures StartsWith(TypesPart(CommitTypes), TypesIntro + TypeEntry(Feat))
    ensures forall t :: t in CommitTypes ==> Contains(TypesPart(CommitTypes), TypeEntry(t))
  {
    FeatHighest();
    TypesPartOf(CommitTypes, Feat);
  }

  /** The types paragraph for a table whose highest priority is held by `top` alone. */
  lemma TypesPartOf(table: seq<CommitType>, top: CommitType)
    requires top in table
    requires forall t :: t in table && t != top ==> t.priority < top.priority
    ensures StartsWith(TypesPart(table), TypesIntro + TypeEntry(top))
    ensures forall t :: t in table ==> Contains(TypesPart(table), TypeEntry(t))
  {
    var listing := FormatTypes(SortCommitTypes(table));
    ListingOf(table, top);
    TrimmedListingEnd(listing);
    var cut := TrimEnd(listing);
    StartsWithShorter(listing, TypeEntry(top), "\n");
    assert StartsWith(cut, TypeEntry(top)) by {
      assert cut[..|TypeEntry(top)|] == listing[..|TypeEntry(top)|];
    }
    StartsWithPrepend(TypesIntro, cut, TypeEntry(top));
    forall t | t in table ensures Contains(TypesPart(table), TypeEntry(t)) {
      TrimmedListingKeeps(listing, TypeEntry(t));
      ContainsAfterPrefix(TypesIntro, cut, TypeEntry(t));
    }
  }

  /** Trimming a listing that ends with ")\n" cuts only its final line break. */
  lemma TrimmedListingEnd(listing: string)
    requires EndsWith(listing, ")\n")
    ensures TrimEnd(listing) == listing[..|listing| - 1]
  {
    var n := |listing|;
    assert listing[n - 2..] == ")\n";
    assert listing[n - 1] == '\n' && listing[n - 2] == ')';
    var cut := listing[..n - 1];
    assert cut[|cut| - 1] == ')';
    assert TrimEnd(cut) == cut;
  }

  /** A line of such a listing, ended by its line break, survives the trimming without it. */
  lemma TrimmedListingKeeps(listing: string, e: string)
    requires EndsWith(listing, ")\n") && Contains(listing, e + "\n")
    ensures Contains(TrimEnd(listing), e)
  {
    TrimmedListingEnd(listing);
    var cut := listing[..|listing| - 1];
    var i :| OccursAt(listing, e + "\n", i);
    assert listing[i..i + |e|] == (e + "\n")[..|e|] == e;
    assert cut[i..i + |e|] == listing[i..i + |e|];
    assert OccursAt(cut, e, i);
  }
}
