/**
 * Pass A of the staged-change classifier: the binary-status map built from the
 * NUL-separated report of `git diff --staged --numstat -z`
 * (`get_binary_status_map` in src/git/mod.rs).
 *
 * Each record starts with a lead field of tab-separated columns
 * "added<TAB>deleted<TAB>path". A rename or copy has its paths in the two
 * fields after the lead; the lead then has an empty third column, a
 * similarity score such as "90%", or only two columns. Any other column count
 * is skipped. The map sends the path (the new path of a rename) to whether
 * both counts are "-", git's mark for a binary file.
 */
module Numstat {
  import opened Wrappers
  import opened Bytes

  const DASH: byte := 45
  const PERCENT: byte := 37
  const PLUS: byte := 43

  /** Which rename-shaped lead expected the path fields that were missing. */
  datatype LeadShape = EmptyPathColumn | SimilarityScore | TwoColumns

  /** Why classifying the staged changes failed; each aborts the whole call. */
  datatype GitError =
    | NumstatLeadNotUtf8(lead: Bytes)
    | NumstatMissingOldPath(shape: LeadShape, lead: Bytes)
    | NumstatMissingNewPath(shape: LeadShape, lead: Bytes)
    | NumstatNewPathNotUtf8(shape: LeadShape, path: Bytes)
    | StatusLeadNotUtf8(lead: Bytes)
    | StatusOldPathNotUtf8(codes: Bytes, path: Bytes)
      /** Slicing the lead off a character boundary, a panic in the source. */
    | StatusLeadSplitsCharacter(lead: Bytes)

  // ---------------------------------------------------------------------------
  // The lead field
  // ---------------------------------------------------------------------------

  predicate IsAsciiDigit(b: byte) {
    48 <= b <= 57
  }

  function DigitsValue(s: Bytes): nat
    requires forall k :: 0 <= k < |s| ==> IsAsciiDigit(s[k])
  {
    if |s| == 0 then 0
    else
      assert IsAsciiDigit(s[|s| - 1]);
      DigitsValue(s[..|s| - 1]) * 10 + (s[|s| - 1] as int - 48)
  }

  /** Rust `str::parse::<u32>` succeeds: an optional '+', then decimal digits denoting less than 2^32. */
  predicate IsU32Literal(s: Bytes) {
    var digits := if |s| > 0 && s[0] == PLUS then s[1..] else s;
    && |digits| > 0
    && (forall k :: 0 <= k < |digits| ==> IsAsciiDigit(digits[k]))
    && DigitsValue(digits) < 0x1_0000_0000
  }

  /** A third column such as "90%": longer than one byte, ending in '%', a u32 before it. */
  predicate IsSimilarityScore(column: Bytes) {
    |column| > 1 && column[|column| - 1] == PERCENT && IsU32Literal(column[..|column| - 1])
  }

  /** Both line counts are "-". */
  predicate IsBinaryStats(added: Bytes, deleted: Bytes) {
    added == [DASH] && deleted == [DASH]
  }

  /** What a lead says about the record it starts. */
  datatype LeadKind =
    | InlinePath(path: Bytes, isBinary: bool)
    | PathsFollow(shape: LeadShape, isBinary: bool)
    | Unrecognized

  function ClassifyLead(lead: Bytes): LeadKind {
    var parts := Split(lead, TAB);
    if |parts| == 3 then
      var isBinary := IsBinaryStats(parts[0], parts[1]);
      if parts[2] == [] then PathsFollow(EmptyPathColumn, isBinary)
      else if IsSimilarityScore(parts[2]) then PathsFollow(SimilarityScore, isBinary)
      else InlinePath(parts[2], isBinary)
    else if |parts| == 2 then PathsFollow(TwoColumns, IsBinaryStats(parts[0], parts[1]))
    else Unrecognized
  }

  // ---------------------------------------------------------------------------
  // Records and the map
  // ---------------------------------------------------------------------------

  datatype NumstatRecord = Stat(path: Bytes, isBinary: bool) | Skipped

  /** The record that starts the remaining fields, and how many fields it takes. */
  function NextRecord(rest: seq<Bytes>): (r: Result<(NumstatRecord, nat), GitError>)
    requires |rest| > 0
    ensures r.Ok? ==> 1 <= r.value.1 <= |rest|
  {
    var lead := rest[0];
    if !IsUtf8(lead) then Err(NumstatLeadNotUtf8(lead))
    else
      match ClassifyLead(lead)
      case InlinePath(path, isBinary) => Ok((Stat(path, isBinary), 1))
      case Unrecognized => Ok((Skipped, 1))
      case PathsFollow(shape, isBinary) =>
        if |rest| < 2 then Err(NumstatMissingOldPath(shape, lead))
        else if |rest| < 3 then Err(NumstatMissingNewPath(shape, lead))
        else if !IsUtf8(rest[2]) then Err(NumstatNewPathNotUtf8(shape, rest[2]))
        else Ok((Stat(rest[2], isBinary), 3))
  }

  /** The records of a field sequence, or the first error met reading them. */
  function Records(rest: seq<Bytes>): Result<seq<NumstatRecord>, GitError>
    decreases |rest|
  {
    if |rest| == 0 then Ok([])
    else
      match NextRecord(rest)
      case Err(e) => Err(e)
      case Ok((record, n)) =>
        match Records(rest[n..])
        case Err(e) => Err(e)
        case Ok(records) => Ok([record] + records)
  }

  /** Insert every record's path in turn; a later record overwrites an earlier one. */
  function InsertAll(m: map<Bytes, bool>, records: seq<NumstatRecord>): map<Bytes, bool>
    decreases |records|
  {
    if |records| == 0 then m
    else
      var m' := if records[0].Stat? then m[records[0].path := records[0].isBinary] else m;
      InsertAll(m', records[1..])
  }

  function InsertRecords(m: map<Bytes, bool>, records: Result<seq<NumstatRecord>, GitError>): Result<map<Bytes, bool>, GitError> {
    match records
    case Err(e) => Err(e)
    case Ok(rs) => Ok(InsertAll(m, rs))
  }

  /** The map `get_binary_status_map` returns for a numstat report. */
  function BinaryStatusMapOf(report: Bytes): Result<map<Bytes, bool>, GitError> {
    if |report| == 0 || AllNul(report) then Ok(map[])
    else InsertRecords(map[], Records(Fields(report)))
  }

  /** A path absent from the map counts as not binary. */
  predicate IsBinaryPath(m: map<Bytes, bool>, path: Bytes) {
    path in m && m[path]
  }

  /** Pass A as the source runs it: a cursor over the fields, inserting as it goes. */
  method BinaryStatusMap(report: Bytes) returns (r: Result<map<Bytes, bool>, GitError>)
    ensures r == BinaryStatusMapOf(report)
  {
    var binaryMap: map<Bytes, bool> := map[];
    if |report| == 0 || AllNul(report) {
      return Ok(binaryMap);
    }
    var fields := Fields(report);
    var i := 0;
    while i < |fields|
      invariant 0 <= i <= |fields|
      invariant BinaryStatusMapOf(report) == InsertRecords(binaryMap, Records(fields[i..]))
      decreases |fields| - i
    {
      ghost var before := fields[i..];
      var lead := fields[i];
      i := i + 1;
      if !IsUtf8(lead) {
        return Err(NumstatLeadNotUtf8(lead));
      }
      var parts := Split(lead, TAB);
      if |parts| == 3 {
        var isBinary := parts[0] == [DASH] && parts[1] == [DASH];
        if parts[2] == [] || IsSimilarityScore(parts[2]) {
          var shape := if parts[2] == [] then EmptyPathColumn else SimilarityScore;
          if i == |fields| {
            return Err(NumstatMissingOldPath(shape, lead));
          }
          i := i + 1;
          if i == |fields| {
            return Err(NumstatMissingNewPath(shape, lead));
          }
          var newPath := fields[i];
          i := i + 1;
          if !IsUtf8(newPath) {
            return Err(NumstatNewPathNotUtf8(shape, newPath));
          }
          binaryMap := binaryMap[newPath := isBinary];
        } else {
          binaryMap := binaryMap[parts[2] := isBinary];
        }
      } else if |parts| == 2 {
        var isBinary := parts[0] == [DASH] && parts[1] == [DASH];
        if i == |fields| {
          return Err(NumstatMissingOldPath(TwoColumns, lead));
        }
        i := i + 1;
        if i == |fields| {
          return Err(NumstatMissingNewPath(TwoColumns, lead));
        }
        var newPath := fields[i];
        i := i + 1;
        if !IsUtf8(newPath) {
          return Err(NumstatNewPathNotUtf8(TwoColumns, newPath));
        }
        binaryMap := binaryMap[newPath := isBinary];
      }
      assert before[i - |fields| + |before|..] == fields[i..];
    }
    return Ok(binaryMap);
  }

  // ---------------------------------------------------------------------------
  // Properties
  // ---------------------------------------------------------------------------

  /** The early return for an empty or all-NUL report agrees with reading its (no) fields. */
  lemma BinaryStatusMapOfFields(report: Bytes)
    ensures BinaryStatusMapOf(report) == InsertRecords(map[], Records(Fields(report)))
  {
    if |report| == 0 || AllNul(report) {
      FieldsAllNul(report);
    }
  }

  /** The map holds the flag of the last record for a path. */
  lemma {:induction false} InsertAllLastWins(m: map<Bytes, bool>, records: seq<NumstatRecord>, j: nat)
    requires j < |records| && records[j].Stat?
    requires forall k :: j < k < |records| && records[k].Stat? ==> records[k].path != records[j].path
    ensures records[j].path in InsertAll(m, records)
    ensures InsertAll(m, records)[records[j].path] == records[j].isBinary
    decreases |records|
  {
    var m' := if records[0].Stat? then m[records[0].path := records[0].isBinary] else m;
    if j == 0 {
      InsertAllUntouched(m', records[1..], records[0].path);
    } else {
      InsertAllLastWins(m', records[1..], j - 1);
    }
  }

  /** A path no record names keeps whatever the map held for it. */
  lemma {:induction false} InsertAllUntouched(m: map<Bytes, bool>, records: seq<NumstatRecord>, path: Bytes)
    requires forall k :: 0 <= k < |records| && records[k].Stat? ==> records[k].path != path
    ensures path in InsertAll(m, records) <==> path in m
    ensures path in m ==> InsertAll(m, records)[path] == m[path]
    decreases |records|
  {
    if |records| > 0 {
      var m' := if records[0].Stat? then m[records[0].path := records[0].isBinary] else m;
      InsertAllUntouched(m', records[1..], path);
    }
  }

  /** Every key of the map comes from the start map or from a record. */
  lemma {:induction false} InsertAllKeys(m: map<Bytes, bool>, records: seq<NumstatRecord>, path: Bytes)
    requires path in InsertAll(m, records)
    ensures path in m || exists k :: 0 <= k < |records| && records[k].Stat? && records[k].path == path
    decreases |records|
  {
    if |records| > 0 {
      var m' := if records[0].Stat? then m[records[0].path := records[0].isBinary] else m;
      InsertAllKeys(m', records[1..], path);
      if path !in m && path !in m' {
        var k :| 0 <= k < |records[1..]| && records[1..][k].Stat? && records[1..][k].path == path;
        assert records[k + 1] == records[1..][k];
      }
    }
  }

  /** A rename-shaped lead with fewer than two fields after it fails the whole call. */
  lemma TruncatedRenameLeadFails(lead: Bytes, after: seq<Bytes>)
    requires IsUtf8(lead) && ClassifyLead(lead).PathsFollow?
    requires |after| < 2
    ensures Records([lead] + after).Err?
  {
    var rest := [lead] + after;
    assert rest[0] == lead;
  }

  // ---------------------------------------------------------------------------
  // Reports as git writes them
  // ---------------------------------------------------------------------------

  /** One entry of a `git diff --numstat -z` report. */
  datatype NumstatLine =
      /** "added<TAB>deleted<TAB>path" */
    | InPlace(added: Bytes, deleted: Bytes, path: Bytes)
      /** "added<TAB>deleted<TAB>score", then the old and the new path; the score may be empty */
    | Moved(added: Bytes, deleted: Bytes, score: Bytes, oldPath: Bytes, newPath: Bytes)
      /** "added<TAB>deleted", then the old and the new path */
    | MovedTwoColumns(added: Bytes, deleted: Bytes, oldPath: Bytes, newPath: Bytes)

  function LineFields(line: NumstatLine): seq<Bytes> {
    match line
    case InPlace(a, d, p) => [Join([a, d, p], TAB)]
    case Moved(a, d, score, o, n) => [Join([a, d, score], TAB), o, n]
    case MovedTwoColumns(a, d, o, n) => [Join([a, d], TAB), o, n]
  }

  function AllLineFields(lines: seq<NumstatLine>): seq<Bytes> {
    if |lines| == 0 then [] else LineFields(lines[0]) + AllLineFields(lines[1..])
  }

  function EncodeNumstat(lines: seq<NumstatLine>): Bytes {
    Terminated(AllLineFields(lines))
  }

  /** The path the map keys a line by: the new path of a rename or copy. */
  function KeyOf(line: NumstatLine): Bytes {
    match line
    case InPlace(_, _, p) => p
    case Moved(_, _, _, _, n) => n
    case MovedTwoColumns(_, _, _, n) => n
  }

  function RecordOf(line: NumstatLine): NumstatRecord {
    Stat(KeyOf(line), IsBinaryStats(line.added, line.deleted))
  }

  function LineRecords(lines: seq<NumstatLine>): (r: seq<NumstatRecord>)
    ensures |r| == |lines| && forall k :: 0 <= k < |lines| ==> r[k] == RecordOf(lines[k])
  {
    if |lines| == 0 then [] else [RecordOf(lines[0])] + LineRecords(lines[1..])
  }

  /** A lead column: valid text without tabs or NULs. */
  predicate IsColumn(c: Bytes) {
    TAB !in c && NUL !in c && IsUtf8(c)
  }

  /** A path field: a non-empty NUL-free byte string. */
  predicate IsPathField(p: Bytes) {
    p != [] && NUL !in p
  }

  /**
   * What the parser needs of a line to read it back. An in-place path shaped
   * like a similarity score ("50%") would be read as a rename lead, so it is
   * excluded; the old path of a rename is never decoded and may be any bytes.
   */
  predicate WellFormedLine(line: NumstatLine) {
    IsColumn(line.added) && IsColumn(line.deleted) &&
    match line
    case InPlace(_, _, p) => IsColumn(p) && p != [] && !IsSimilarityScore(p)
    case Moved(_, _, score, o, n) =>
      IsColumn(score) && (score == [] || IsSimilarityScore(score)) &&
      IsPathField(o) && IsPathField(n) && IsUtf8(n)
    case MovedTwoColumns(_, _, o, n) => IsPathField(o) && IsPathField(n) && IsUtf8(n)
  }

  lemma LeadOfColumns(columns: seq<Bytes>)
    requires 2 <= |columns| <= 3
    requires forall k :: 0 <= k < |columns| ==> IsColumn(columns[k])
    ensures var lead := Join(columns, TAB);
      lead != [] && NUL !in lead && IsUtf8(lead) && Split(lead, TAB) == columns
  {
    var lead := Join(columns, TAB);
    assert lead == columns[0] + [TAB] + Join(columns[1..], TAB);
    JoinExcludes(columns, TAB, NUL);
    Utf8Join(columns, TAB);
    SplitJoin(columns, TAB);
  }

  lemma {:induction false} LineFieldsWellFormed(line: NumstatLine)
    requires WellFormedLine(line)
    ensures forall k :: 0 <= k < |LineFields(line)| ==> LineFields(line)[k] != [] && NUL !in LineFields(line)[k]
  {
    match line
    case InPlace(a, d, p) =>
      LeadOfColumns([a, d, p]);
      CleanFields([Join([a, d, p], TAB)]);
    case Moved(a, d, score, o, n) =>
      LeadOfColumns([a, d, score]);
      CleanFields([Join([a, d, score], TAB), o, n]);
    case MovedTwoColumns(a, d, o, n) =>
      LeadOfColumns([a, d]);
      CleanFields([Join([a, d], TAB), o, n]);
  }

  lemma CleanFields(fields: seq<Bytes>)
    requires |fields| == 1 || |fields| == 3
    requires fields[0] != [] && NUL !in fields[0]
    requires |fields| == 3 ==> IsPathField(fields[1]) && IsPathField(fields[2])
    ensures forall k :: 0 <= k < |fields| ==> fields[k] != [] && NUL !in fields[k]
  {
  }

  /** A well-formed line is read back as exactly one record, using exactly its own fields. */
  lemma {:induction false} NextRecordOfLine(line: NumstatLine, more: seq<Bytes>)
    requires WellFormedLine(line)
    ensures NextRecord(LineFields(line) + more) == Ok((RecordOf(line), |LineFields(line)|))
  {
    var rest := LineFields(line) + more;
    match line
    case InPlace(a, d, p) =>
      LeadOfColumns([a, d, p]);
    case Moved(a, d, score, o, n) =>
      LeadOfColumns([a, d, score]);
      assert rest[2] == n;
    case MovedTwoColumns(a, d, o, n) =>
      LeadOfColumns([a, d]);
      assert rest[2] == n;
  }

  lemma {:induction false} RecordsOfLines(lines: seq<NumstatLine>)
    requires forall k :: 0 <= k < |lines| ==> WellFormedLine(lines[k])
    ensures Records(AllLineFields(lines)) == Ok(LineRecords(lines))
  {
    if |lines| > 0 {
      var own := LineFields(lines[0]);
      var more := AllLineFields(lines[1..]);
      NextRecordOfLine(lines[0], more);
      assert (own + more)[|own|..] == more;
      RecordsOfLines(lines[1..]);
    }
  }

  lemma {:induction false} AllLineFieldsWellFormed(lines: seq<NumstatLine>)
    requires forall k :: 0 <= k < |lines| ==> WellFormedLine(lines[k])
    ensures forall k :: 0 <= k < |AllLineFields(lines)| ==>
      AllLineFields(lines)[k] != [] && NUL !in AllLineFields(lines)[k]
  {
    if |lines| > 0 {
      LineFieldsWellFormed(lines[0]);
      AllLineFieldsWellFormed(lines[1..]);
    }
  }

  /** Parsing a report git could have written recovers one record per line, in order. */
  lemma NumstatRoundTrip(lines: seq<NumstatLine>)
    requires forall k :: 0 <= k < |lines| ==> WellFormedLine(lines[k])
    ensures BinaryStatusMapOf(EncodeNumstat(lines)) == Ok(InsertAll(map[], LineRecords(lines)))
  {
    AllLineFieldsWellFormed(lines);
    FieldsOfTerminated(AllLineFields(lines));
    BinaryStatusMapOfFields(EncodeNumstat(lines));
    RecordsOfLines(lines);
  }

  /** Line `j` is the last line keyed by `path`. */
  predicate IsLastKeyedBy(lines: seq<NumstatLine>, j: int, path: Bytes) {
    0 <= j < |lines| && KeyOf(lines[j]) == path &&
    forall k :: j < k < |lines| ==> KeyOf(lines[k]) != path
  }

  /**
   * For a report git could have written: a path is binary exactly when the last
   * line keyed by it has "-" for both counts, and a path no line names is absent.
   */
  lemma NumstatReportLookup(lines: seq<NumstatLine>, path: Bytes)
    requires forall k :: 0 <= k < |lines| ==> WellFormedLine(lines[k])
    ensures BinaryStatusMapOf(EncodeNumstat(lines)).Ok?
    ensures (forall j :: 0 <= j < |lines| ==> KeyOf(lines[j]) != path) ==>
      path !in BinaryStatusMapOf(EncodeNumstat(lines)).value
    ensures forall j :: IsLastKeyedBy(lines, j, path) ==>
      IsBinaryPath(BinaryStatusMapOf(EncodeNumstat(lines)).value, path) ==
      IsBinaryStats(lines[j].added, lines[j].deleted)
  {
    NumstatRoundTrip(lines);
    var records := LineRecords(lines);
    if forall j :: 0 <= j < |lines| ==> KeyOf(lines[j]) != path {
      InsertAllUntouched(map[], records, path);
    }
    forall j | IsLastKeyedBy(lines, j, path)
      ensures IsBinaryPath(InsertAll(map[], records), path) == IsBinaryStats(lines[j].added, lines[j].deleted)
    {
      InsertAllLastWins(map[], records, j);
    }
  }

  /**
   * The similarity-score branch misreads a staged file whose name looks like a
   * score. For in-place lines "a<TAB>d<TAB>50%", then two more in-place lines,
   * the parser takes the next two lead fields as the old and new path: the map
   * has the whole third lead ("a3<TAB>d3<TAB>p3") as its only key, with the
   * first line's flag, and none of the three paths.
   */
  lemma ScoreShapedPathMisread(first: NumstatLine, second: NumstatLine, third: NumstatLine)
    requires first.InPlace? && IsColumn(first.added) && IsColumn(first.deleted)
    requires IsColumn(first.path) && IsSimilarityScore(first.path)
    requires second.InPlace? && WellFormedLine(second) && third.InPlace? && WellFormedLine(third)
    ensures BinaryStatusMapOf(EncodeNumstat([first, second, third])) ==
      Ok(map[Join([third.added, third.deleted, third.path], TAB) := IsBinaryStats(first.added, first.deleted)])
    ensures var m := BinaryStatusMapOf(EncodeNumstat([first, second, third])).value;
      KeyOf(first) !in m && KeyOf(second) !in m && KeyOf(third) !in m
  {
    ScoreShapedReport(first, second, third);
    LeadHoldsTab(third.added, third.deleted, third.path);
  }

  lemma ScoreShapedReport(first: NumstatLine, second: NumstatLine, third: NumstatLine)
    requires first.InPlace? && IsColumn(first.added) && IsColumn(first.deleted)
    requires IsColumn(first.path) && IsSimilarityScore(first.path)
    requires second.InPlace? && WellFormedLine(second) && third.InPlace? && WellFormedLine(third)
    ensures BinaryStatusMapOf(EncodeNumstat([first, second, third])) ==
      Ok(map[Join([third.added, third.deleted, third.path], TAB) := IsBinaryStats(first.added, first.deleted)])
  {
    var lead0 := Join([first.added, first.deleted, first.path], TAB);
    var lead1 := Join([second.added, second.deleted, second.path], TAB);
    var lead2 := Join([third.added, third.deleted, third.path], TAB);
    LeadOfColumns([first.added, first.deleted, first.path]);
    LeadOfColumns([second.added, second.deleted, second.path]);
    LeadOfColumns([third.added, third.deleted, third.path]);
    ThreeInPlaceFields(first, second, third);
    ThreeFields(lead0, lead1, lead2);
    BinaryStatusMapOfFields(EncodeNumstat([first, second, third]));
    ScoreLeadRecords(first, lead1, lead2);
  }

  lemma ThreeFields(f0: Bytes, f1: Bytes, f2: Bytes)
    requires f0 != [] && NUL !in f0 && f1 != [] && NUL !in f1 && f2 != [] && NUL !in f2
    ensures Fields(Terminated([f0, f1, f2])) == [f0, f1, f2]
  {
    var fields := [f0, f1, f2];
    assert forall k :: 0 <= k < |fields| ==> fields[k] != [] && NUL !in fields[k] by {
      forall k | 0 <= k < |fields| ensures fields[k] != [] && NUL !in fields[k] {
        assert k == 0 || k == 1 || k == 2;
      }
    }
    FieldsOfTerminated(fields);
  }

  /** A score-shaped in-place lead and the two fields after it are read as one rename record. */
  lemma ScoreLeadRecords(first: NumstatLine, oldPath: Bytes, newPath: Bytes)
    requires first.InPlace? && IsColumn(first.added) && IsColumn(first.deleted)
    requires IsColumn(first.path) && IsSimilarityScore(first.path) && IsUtf8(newPath)
    ensures InsertRecords(map[], Records([Join([first.added, first.deleted, first.path], TAB), oldPath, newPath])) ==
      Ok(map[newPath := IsBinaryStats(first.added, first.deleted)])
  {
    var lead := Join([first.added, first.deleted, first.path], TAB);
    LeadOfColumns([first.added, first.deleted, first.path]);
    var isBinary := IsBinaryStats(first.added, first.deleted);
    assert ClassifyLead(lead) == PathsFollow(SimilarityScore, isBinary);
    LeadTakesTwoFields(lead, oldPath, newPath);
    assert InsertAll(map[], [Stat(newPath, isBinary)]) == InsertAll(map[newPath := isBinary], []);
  }

  lemma LeadHoldsTab(added: Bytes, deleted: Bytes, path: Bytes)
    ensures TAB in Join([added, deleted, path], TAB)
  {
    var lead := Join([added, deleted, path], TAB);
    assert lead == added + [TAB] + Join([deleted, path], TAB);
    assert lead[|added|] == TAB;
  }

  lemma ThreeInPlaceFields(first: NumstatLine, second: NumstatLine, third: NumstatLine)
    requires first.InPlace? && second.InPlace? && third.InPlace?
    ensures AllLineFields([first, second, third]) ==
      [Join([first.added, first.deleted, first.path], TAB),
       Join([second.added, second.deleted, second.path], TAB),
       Join([third.added, third.deleted, third.path], TAB)]
  {
    assert [first, second, third][1..] == [second, third];
    assert [second, third][1..] == [third];
    assert [third][1..] == [];
    assert AllLineFields([third]) == LineFields(third) + [];
    assert AllLineFields([second, third]) == LineFields(second) + AllLineFields([third]);
  }

  /** A rename-shaped lead takes the two fields after it, whatever they hold. */
  lemma LeadTakesTwoFields(lead: Bytes, oldPath: Bytes, newPath: Bytes)
    requires IsUtf8(lead) && ClassifyLead(lead).PathsFollow? && IsUtf8(newPath)
    ensures Records([lead, oldPath, newPath]) == Ok([Stat(newPath, ClassifyLead(lead).isBinary)])
  {
    var rest := [lead, oldPath, newPath];
    assert NextRecord(rest) == Ok((Stat(newPath, ClassifyLead(lead).isBinary), 3));
    assert rest[3..] == [];
    assert Records(rest[3..]) == Ok([]);
    assert [Stat(newPath, ClassifyLead(lead).isBinary)] + [] == [Stat(newPath, ClassifyLead(lead).isBinary)];
  }
}
