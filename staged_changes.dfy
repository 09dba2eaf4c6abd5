/**
 * Pass B of the staged-change classifier (`get_staged_changes_summary` in
 * src/git/mod.rs): the NUL-separated report of
 * `git status --porcelain=v1 -z --untracked-files=no`, read record by record
 * and turned into the two description lists of a `StagedChangesSummary`,
 * using the binary-status map of Pass A. Both lists are sorted at the end.
 *
 * A record is a lead "XY path" (two status bytes, a separator byte, the path),
 * followed, when X is 'R' or 'C', by a field holding the old path.
 */
module StagedChanges {
  import opened Wrappers
  import opened Bytes
  import opened Numstat
  import opened Ordering

  const SPACE: byte := 32
  const CODE_A: byte := 65
  const CODE_C: byte := 67
  const CODE_D: byte := 68
  const CODE_M: byte := 77
  const CODE_R: byte := 82
  const CODE_T: byte := 84

  /** The result of the classifier: descriptions of binary-file events and of structural events. */
  datatype StagedChangesSummary = StagedChangesSummary(binaryFileChanges: seq<Bytes>, structureChanges: seq<Bytes>)

  const EmptySummary := StagedChangesSummary([], [])

  // ---------------------------------------------------------------------------
  // Byte-string order (Rust `Ord` for `String`) and the final sort
  // ---------------------------------------------------------------------------

  function ByteRank(b: byte): int {
    b as int
  }

  function ByteLexLe(a: Bytes, b: Bytes): bool {
    LexLe(a, b, ByteRank)
  }

  lemma ByteLexTotalOrder()
    ensures TotalOrder(ByteLexLe)
  {
    LexTotalOrder(ByteLexLe, ByteRank);
  }

  /** Rust `Vec<String>::sort`: the sorted permutation of the list. */
  function SortStrings(s: seq<Bytes>): (r: seq<Bytes>)
    ensures SortedBy(r, ByteLexLe) && multiset(r) == multiset(s)
  {
    ByteLexTotalOrder();
    Sort(s, ByteLexLe)
  }

  // ---------------------------------------------------------------------------
  // Status entries
  // ---------------------------------------------------------------------------

  /** A status record: index status X, work-tree status Y, the path, and the old path read for 'R'/'C'. */
  datatype StatusEntry = StatusEntry(x: byte, y: byte, path: Bytes, oldPath: Option<Bytes>)

  predicate IsRenameOrCopyCode(x: byte) {
    x == CODE_R || x == CODE_C
  }

  /**
   * The entry that starts the remaining fields (None for a lead shorter than
   * three bytes, which is skipped), and how many fields it takes. A missing
   * old path after an 'R'/'C' lead is not an error: the entry has no old path.
   */
  function NextEntry(rest: seq<Bytes>): (r: Result<(Option<StatusEntry>, nat), GitError>)
    requires |rest| > 0
    ensures r.Ok? ==> 1 <= r.value.1 <= |rest|
  {
    var lead := rest[0];
    if !IsUtf8(lead) then Err(StatusLeadNotUtf8(lead))
    else if |lead| < 3 then Ok((None, 1))
    else if !IsCharBoundary(lead, 2) || !IsCharBoundary(lead, 3) then Err(StatusLeadSplitsCharacter(lead))
    else
      var x, y, path := lead[0], lead[1], lead[3..];
      if IsRenameOrCopyCode(x) then
        if |rest| == 1 then Ok((Some(StatusEntry(x, y, path, None)), 1))
        else if !IsUtf8(rest[1]) then Err(StatusOldPathNotUtf8(lead[..2], rest[1]))
        else Ok((Some(StatusEntry(x, y, path, Some(rest[1]))), 2))
      else Ok((Some(StatusEntry(x, y, path, None)), 1))
  }

  /** The entries of a status field sequence, or the first error met reading them. */
  function Entries(rest: seq<Bytes>): Result<seq<StatusEntry>, GitError>
    decreases |rest|
  {
    if |rest| == 0 then Ok([])
    else
      match NextEntry(rest)
      case Err(e) => Err(e)
      case Ok((entry, n)) =>
        match Entries(rest[n..])
        case Err(e) => Err(e)
        case Ok(entries) => Ok((if entry.Some? then [entry.value] else []) + entries)
  }

  // ---------------------------------------------------------------------------
  // Descriptions
  // ---------------------------------------------------------------------------

  /** What entries add to the binary-change list and to the structure-change list. */
  datatype Emission = Emission(binary: seq<Bytes>, structure: seq<Bytes>)

  function IfBinary(isBinary: bool, description: Bytes): seq<Bytes> {
    if isBinary then [description] else []
  }

  /** The descriptions one entry adds, selected by its first status byte. */
  function Emit(e: StatusEntry, m: map<Bytes, bool>): Emission {
    var p := e.path;
    var isBinary := IsBinaryPath(m, p);
    if e.x == CODE_A then
      Emission(IfBinary(isBinary, Ascii("added binary file: ") + p), [])
    else if e.x == CODE_D then
      Emission([], [Ascii("deleted file: ") + p])
    else if e.x == CODE_R then
      match e.oldPath
      case Some(o) =>
        if o != [] && p != [] then
          Emission(IfBinary(isBinary, Ascii("renamed binary file: ") + o + Ascii(" to ") + p),
                   [Ascii("renamed: ") + o + Ascii(" to ") + p])
        else Emission([], [])
      case None => Emission([], [])
    else if e.x == CODE_M then
      Emission(IfBinary(isBinary, Ascii("modified binary file: ") + p), [])
    else if e.x == CODE_T then
      Emission(IfBinary(isBinary, Ascii("type changed to binary: ") + p), [Ascii("type changed for: ") + p])
    else if e.x == CODE_C then
      Emission(IfBinary(isBinary, Ascii("copied binary file to: ") + p),
               match e.oldPath case Some(o) => [Ascii("copied: ") + o + Ascii(" to ") + p] case None => [])
    else Emission([], [])
  }

  function EmitAll(entries: seq<StatusEntry>, m: map<Bytes, bool>): Emission
  {
    if |entries| == 0 then Emission([], [])
    else
      var first := Emit(entries[0], m);
      var rest := EmitAll(entries[1..], m);
      Emission(first.binary + rest.binary, first.structure + rest.structure)
  }

  /** The summary `get_staged_changes_summary` returns for a status report and a numstat report. */
  function StagedChangesSummaryOf(status: Bytes, numstat: Bytes): Result<StagedChangesSummary, GitError> {
    if |status| == 0 || AllNul(status) then Ok(EmptySummary)
    else
      match BinaryStatusMapOf(numstat)
      case Err(e) => Err(e)
      case Ok(m) =>
        match Entries(Fields(status))
        case Err(e) => Err(e)
        case Ok(entries) =>
          var emitted := EmitAll(entries, m);
          Ok(StagedChangesSummary(SortStrings(emitted.binary), SortStrings(emitted.structure)))
  }

  function PrependEntries(done: seq<StatusEntry>, r: Result<seq<StatusEntry>, GitError>): Result<seq<StatusEntry>, GitError> {
    match r
    case Err(e) => Err(e)
    case Ok(entries) => Ok(done + entries)
  }

  lemma EntriesUnfold(rest: seq<Bytes>)
    requires |rest| > 0
    ensures var next := NextEntry(rest);
      next.Ok? ==> Entries(rest) == PrependEntries(if next.value.0.Some? then [next.value.0.value] else [], Entries(rest[next.value.1..]))
  {
  }

  /** The entry read from a lead of three bytes or more, with the old path when it was read. */
  lemma NextEntryOfRecord(rest: seq<Bytes>, taken: nat)
    requires |rest| > 0 && IsUtf8(rest[0]) && |rest[0]| >= 3
    requires IsCharBoundary(rest[0], 2) && IsCharBoundary(rest[0], 3)
    requires taken == if IsRenameOrCopyCode(rest[0][0]) && |rest| > 1 then 2 else 1
    requires taken == 2 ==> IsUtf8(rest[1])
    ensures NextEntry(rest) ==
      Ok((Some(StatusEntry(rest[0][0], rest[0][1], rest[0][3..], if taken == 2 then Some(rest[1]) else None)), taken))
  {
  }

  /** One step of the cursor: the entry read from the front moves from the pending entries to the done ones. */
  lemma EntriesStep(done: seq<StatusEntry>, rest: seq<Bytes>, entry: Option<StatusEntry>, n: nat)
    requires |rest| > 0 && NextEntry(rest) == Ok((entry, n))
    ensures PrependEntries(done, Entries(rest)) ==
      PrependEntries(done + (if entry.Some? then [entry.value] else []), Entries(rest[n..]))
  {
    var e := if entry.Some? then [entry.value] else [];
    EntriesUnfold(rest);
    PrependTwice(done, e, Entries(rest[n..]));
  }

  lemma PrependTwice(done: seq<StatusEntry>, e: seq<StatusEntry>, r: Result<seq<StatusEntry>, GitError>)
    ensures PrependEntries(done, PrependEntries(e, r)) == PrependEntries(done + e, r)
  {
    if r.Ok? {
      assert done + (e + r.value) == (done + e) + r.value;
    }
  }

  lemma EmitAllAppend(done: seq<StatusEntry>, e: StatusEntry, m: map<Bytes, bool>)
    ensures EmitAll(done + [e], m) ==
      Emission(EmitAll(done, m).binary + Emit(e, m).binary, EmitAll(done, m).structure + Emit(e, m).structure)
    decreases |done|
  {
    if |done| > 0 {
      assert (done + [e])[1..] == done[1..] + [e];
      EmitAllAppend(done[1..], e, m);
    }
  }

  /**
   * The `match` on the first status byte: push the descriptions of one entry
   * onto the two lists.
   */
  method PushDescriptions(binaryMap: map<Bytes, bool>, entry: StatusEntry, binary: seq<Bytes>, structure: seq<Bytes>)
    returns (binaryFileChanges: seq<Bytes>, structureChanges: seq<Bytes>)
    ensures binaryFileChanges == binary + Emit(entry, binaryMap).binary
    ensures structureChanges == structure + Emit(entry, binaryMap).structure
  {
    binaryFileChanges, structureChanges := binary, structure;
    var index, path, oldPath := entry.x, entry.path, entry.oldPath;
    var isBinary := path in binaryMap && binaryMap[path];
    if index == CODE_A {
      if isBinary {
        binaryFileChanges := binaryFileChanges + [Ascii("added binary file: ") + path];
      }
    } else if index == CODE_D {
      structureChanges := structureChanges + [Ascii("deleted file: ") + path];
    } else if index == CODE_R {
      if oldPath.Some? {
        var oldName := oldPath.value;
        if oldName != [] && path != [] {
          structureChanges := structureChanges + [Ascii("renamed: ") + oldName + Ascii(" to ") + path];
          if isBinary {
            binaryFileChanges := binaryFileChanges + [Ascii("renamed binary file: ") + oldName + Ascii(" to ") + path];
          }
        }
      }
    } else if index == CODE_M {
      if isBinary {
        binaryFileChanges := binaryFileChanges + [Ascii("modified binary file: ") + path];
      }
    } else if index == CODE_T {
      structureChanges := structureChanges + [Ascii("type changed for: ") + path];
      if isBinary {
        binaryFileChanges := binaryFileChanges + [Ascii("type changed to binary: ") + path];
      }
    } else if index == CODE_C {
      if oldPath.Some? {
        structureChanges := structureChanges + [Ascii("copied: ") + oldPath.value + Ascii(" to ") + path];
      }
      if isBinary {
        binaryFileChanges := binaryFileChanges + [Ascii("copied binary file to: ") + path];
      }
    }
  }

  /**
   * Pass B as the source runs it: a cursor over the status fields, pushing
   * descriptions as it goes, then sorting both lists.
   */
  method GetStagedChangesSummary(status: Bytes, numstat: Bytes) returns (r: Result<StagedChangesSummary, GitError>)
    ensures r == StagedChangesSummaryOf(status, numstat)
    ensures r.Ok? ==> SortedBy(r.value.binaryFileChanges, ByteLexLe) && SortedBy(r.value.structureChanges, ByteLexLe)
  {
    if |status| == 0 || AllNul(status) {
      return Ok(EmptySummary);
    }
    var mapResult := BinaryStatusMap(numstat);
    if mapResult.Err? {
      return Err(mapResult.error);
    }
    var binaryMap := mapResult.value;
    var fields := Fields(status);
    var binaryFileChanges: seq<Bytes> := [];
    var structureChanges: seq<Bytes> := [];
    ghost var done: seq<StatusEntry> := [];
    var i := 0;
    assert fields[i..] == fields;
    assert Entries(fields).Ok? ==> [] + Entries(fields).value == Entries(fields).value;
    while i < |fields|
      invariant 0 <= i <= |fields|
      invariant Entries(fields) == PrependEntries(done, Entries(fields[i..]))
      invariant binaryFileChanges == EmitAll(done, binaryMap).binary
      invariant structureChanges == EmitAll(done, binaryMap).structure
      decreases |fields| - i
    {
      ghost var before := fields[i..];
      var lead := fields[i];
      i := i + 1;
      if !IsUtf8(lead) {
        return Err(StatusLeadNotUtf8(lead));
      }
      if |lead| < 3 {
        assert before[1..] == fields[i..];
        EntriesStep(done, before, None, 1);
        assert done + [] == done;
        continue;
      }
      if !IsCharBoundary(lead, 2) || !IsCharBoundary(lead, 3) {
        return Err(StatusLeadSplitsCharacter(lead));
      }
      var statusCodes := lead[..2];
      var path := lead[3..];
      var oldPath: Option<Bytes> := None;
      ghost var taken := 1;
      if statusCodes[0] == CODE_R || statusCodes[0] == CODE_C {
        if i < |fields| {
          var oldPathBytes := fields[i];
          i := i + 1;
          if !IsUtf8(oldPathBytes) {
            return Err(StatusOldPathNotUtf8(statusCodes, oldPathBytes));
          }
          oldPath := Some(oldPathBytes);
          taken := 2;
        }
      }
      var entry := StatusEntry(statusCodes[0], statusCodes[1], path, oldPath);
      assert before[taken..] == fields[i..];
      NextEntryOfRecord(before, taken);
      EntriesStep(done, before, Some(entry), taken);
      binaryFileChanges, structureChanges := PushDescriptions(binaryMap, entry, binaryFileChanges, structureChanges);
      EmitAllAppend(done, entry, binaryMap);
      done := done + [entry];
    }
    assert fields[i..] == [];
    assert done + [] == done;
    assert Entries(fields) == Ok(done);
    binaryFileChanges := SortStrings(binaryFileChanges);
    structureChanges := SortStrings(structureChanges);
    return Ok(StagedChangesSummary(binaryFileChanges, structureChanges));
  }

  // ---------------------------------------------------------------------------
  // Properties of the descriptions
  // ---------------------------------------------------------------------------

  /** The structure-change list does not depend on which paths the numstat report marks binary. */
  lemma {:induction false} StructureIndependentOfMap(entries: seq<StatusEntry>, m1: map<Bytes, bool>, m2: map<Bytes, bool>)
    ensures EmitAll(entries, m1).structure == EmitAll(entries, m2).structure
    decreases |entries|
  {
    if |entries| > 0 {
      StructureIndependentOfMap(entries[1..], m1, m2);
    }
  }

  /**
   * Every binary-file description comes from an entry whose path the map marks
   * binary, and no entry adds more than one of them.
   */
  lemma {:induction false} BinaryDescriptionsNeedBinaryPaths(entries: seq<StatusEntry>, m: map<Bytes, bool>)
    ensures |EmitAll(entries, m).binary| <= |entries|
    ensures forall d :: d in EmitAll(entries, m).binary ==>
      exists k :: 0 <= k < |entries| && IsBinaryPath(m, entries[k].path) && HasSuffix(d, entries[k].path)
    decreases |entries|
  {
    if |entries| > 0 {
      BinaryDescriptionsNeedBinaryPaths(entries[1..], m);
      EmitBinary(entries[0], m);
      var first := Emit(entries[0], m);
      var rest := EmitAll(entries[1..], m);
      forall d | d in first.binary + rest.binary
        ensures exists k :: 0 <= k < |entries| && IsBinaryPath(m, entries[k].path) && HasSuffix(d, entries[k].path)
      {
        if d in first.binary {
          assert IsBinaryPath(m, entries[0].path) && HasSuffix(d, entries[0].path);
        } else {
          var k :| 0 <= k < |entries[1..]| && IsBinaryPath(m, entries[1..][k].path) && HasSuffix(d, entries[1..][k].path);
          assert entries[k + 1] == entries[1..][k];
        }
      }
    }
  }

  /** One entry adds at most one binary-file description, ending with its path, and only when the map marks the path binary. */
  lemma EmitBinary(e: StatusEntry, m: map<Bytes, bool>)
    ensures |Emit(e, m).binary| <= 1
    ensures forall d :: d in Emit(e, m).binary ==> IsBinaryPath(m, e.path) && HasSuffix(d, e.path)
  {
  }

  /** With no binary path in the numstat map, the binary-change list is empty. */
  lemma NoBinaryPathsNoBinaryChanges(entries: seq<StatusEntry>, m: map<Bytes, bool>)
    requires forall k :: 0 <= k < |entries| ==> !IsBinaryPath(m, entries[k].path)
    ensures EmitAll(entries, m).binary == []
  {
    BinaryDescriptionsNeedBinaryPaths(entries, m);
  }

  /** The summary holds the descriptions of the entries, each list in sorted order. */
  lemma SummaryIsSortedDescriptions(status: Bytes, numstat: Bytes)
    requires StagedChangesSummaryOf(status, numstat).Ok? && !(|status| == 0 || AllNul(status))
    ensures BinaryStatusMapOf(numstat).Ok? && Entries(Fields(status)).Ok?
    ensures var s := StagedChangesSummaryOf(status, numstat).value;
      var emitted := EmitAll(Entries(Fields(status)).value, BinaryStatusMapOf(numstat).value);
      && SortedBy(s.binaryFileChanges, ByteLexLe) && multiset(s.binaryFileChanges) == multiset(emitted.binary)
      && SortedBy(s.structureChanges, ByteLexLe) && multiset(s.structureChanges) == multiset(emitted.structure)
  {
  }

  // ---------------------------------------------------------------------------
  // A report git could have written
  // ---------------------------------------------------------------------------

  /** The fields of one record: the lead "XY path", then the old path when there is one. */
  function EntryFields(e: StatusEntry): seq<Bytes> {
    [[e.x, e.y, SPACE] + e.path] + (match e.oldPath case Some(o) => [o] case None => [])
  }

  function AllEntryFields(entries: seq<StatusEntry>): seq<Bytes> {
    if |entries| == 0 then [] else EntryFields(entries[0]) + AllEntryFields(entries[1..])
  }

  /** The report `git status --porcelain=v1 -z` writes for the entries. */
  function EncodeStatus(entries: seq<StatusEntry>): Bytes {
    Terminated(AllEntryFields(entries))
  }

  /** A status letter or the blank git writes for an unchanged side. */
  predicate IsStatusCode(b: byte) {
    0 < b < 0x80
  }

  /** What git guarantees of a record: ASCII codes, text paths, an old path exactly for 'R'/'C'. */
  predicate WellFormedEntry(e: StatusEntry) {
    && IsStatusCode(e.x) && IsStatusCode(e.y)
    && NUL !in e.path && IsUtf8(e.path)
    && (e.oldPath.Some? <==> IsRenameOrCopyCode(e.x))
    && (e.oldPath.Some? ==> e.oldPath.value != [] && NUL !in e.oldPath.value && IsUtf8(e.oldPath.value))
  }

  lemma LeadOfEntry(x: byte, y: byte, path: Bytes)
    requires IsStatusCode(x) && IsStatusCode(y) && NUL !in path && IsUtf8(path)
    ensures var lead := [x, y, SPACE] + path;
      && NUL !in lead && IsUtf8(lead) && |lead| >= 3
      && IsCharBoundary(lead, 2) && IsCharBoundary(lead, 3)
      && lead[0] == x && lead[1] == y && lead[..2] == [x, y] && lead[3..] == path
  {
    var lead := [x, y, SPACE] + path;
    Utf8Ascii([x, y, SPACE]);
    Utf8Concat([x, y, SPACE], path);
    if |path| > 0 {
      Utf8Start(path);
      assert lead[3] == path[0];
    }
    assert lead[3..] == path;
  }

  /** A well-formed record is read back as itself, using exactly its own fields. */
  lemma NextEntryOfEntry(e: StatusEntry, more: seq<Bytes>)
    requires WellFormedEntry(e)
    ensures NextEntry(EntryFields(e) + more) == Ok((Some(e), |EntryFields(e)|))
  {
    LeadOfEntry(e.x, e.y, e.path);
    var rest := EntryFields(e) + more;
    if e.oldPath.Some? {
      assert rest[1] == e.oldPath.value;
    }
  }

  lemma {:induction false} EntriesOfFields(entries: seq<StatusEntry>)
    requires forall k :: 0 <= k < |entries| ==> WellFormedEntry(entries[k])
    ensures Entries(AllEntryFields(entries)) == Ok(entries)
  {
    if |entries| > 0 {
      var own := EntryFields(entries[0]);
      var more := AllEntryFields(entries[1..]);
      assert AllEntryFields(entries) == own + more;
      NextEntryOfEntry(entries[0], more);
      EntriesUnfold(own + more);
      assert (own + more)[|own|..] == more;
      assert forall k :: 0 <= k < |entries[1..]| ==> entries[1..][k] == entries[k + 1];
      EntriesOfFields(entries[1..]);
      assert Entries(own + more) == PrependEntries([entries[0]], Ok(entries[1..]));
      assert entries == [entries[0]] + entries[1..];
    }
  }

  lemma {:induction false} AllEntryFieldsWellFormed(entries: seq<StatusEntry>)
    requires forall k :: 0 <= k < |entries| ==> WellFormedEntry(entries[k])
    ensures forall k :: 0 <= k < |AllEntryFields(entries)| ==>
      AllEntryFields(entries)[k] != [] && NUL !in AllEntryFields(entries)[k]
  {
    if |entries| > 0 {
      LeadOfEntry(entries[0].x, entries[0].y, entries[0].path);
      AllEntryFieldsWellFormed(entries[1..]);
    }
  }

  /** Reading a status report git could have written recovers its records, in order. */
  lemma StatusRoundTrip(entries: seq<StatusEntry>)
    requires forall k :: 0 <= k < |entries| ==> WellFormedEntry(entries[k])
    ensures entries != [] <==> !(|EncodeStatus(entries)| == 0 || AllNul(EncodeStatus(entries)))
    ensures Entries(Fields(EncodeStatus(entries))) == Ok(entries)
  {
    AllEntryFieldsWellFormed(entries);
    FieldsOfTerminated(AllEntryFields(entries));
    EntriesOfFields(entries);
    if entries != [] {
      assert EncodeStatus(entries)[0] == entries[0].x;
    }
  }

  /**
   * For reports git could have written: the summary lists, sorted, the
   * descriptions of the status records, judged binary by the numstat lines.
   */
  lemma SummaryOfReports(entries: seq<StatusEntry>, lines: seq<NumstatLine>)
    requires forall k :: 0 <= k < |entries| ==> WellFormedEntry(entries[k])
    requires forall k :: 0 <= k < |lines| ==> WellFormedLine(lines[k])
    ensures var emitted := EmitAll(entries, InsertAll(map[], LineRecords(lines)));
      StagedChangesSummaryOf(EncodeStatus(entries), EncodeNumstat(lines)) ==
        Ok(StagedChangesSummary(SortStrings(emitted.binary), SortStrings(emitted.structure)))
  {
    StatusRoundTrip(entries);
    NumstatRoundTrip(lines);
    if entries == [] {
      assert SortStrings([]) == [];
    }
  }

  /** A rename or copy record cut off before its old path is read as having none, not as an error. */
  lemma MissingOldPathIsNotAnError(x: byte, y: byte, path: Bytes)
    requires IsRenameOrCopyCode(x) && IsStatusCode(y) && NUL !in path && IsUtf8(path)
    ensures Entries([[x, y, SPACE] + path]) == Ok([StatusEntry(x, y, path, None)])
  {
    LeadOfEntry(x, y, path);
    var rest := [[x, y, SPACE] + path];
    assert NextEntry(rest) == Ok((Some(StatusEntry(x, y, path, None)), 1));
    assert rest[1..] == [];
    assert Entries(rest[1..]) == Ok([]);
    var e := StatusEntry(x, y, path, None);
    assert [e] + [] == [e];
  }

  // ---------------------------------------------------------------------------
  // One-record reports
  // ---------------------------------------------------------------------------

  lemma SortShort(s: seq<Bytes>)
    requires |s| <= 1
    ensures SortStrings(s) == s
  {
    if |s| == 1 {
      assert s == [s[0]];
    }
  }

  /** One record adds at most one description to each list. */
  lemma EmitAtMostOne(e: StatusEntry, m: map<Bytes, bool>)
    ensures |Emit(e, m).binary| <= 1 && |Emit(e, m).structure| <= 1
  {
  }

  lemma EmitSingle(e: StatusEntry, m: map<Bytes, bool>)
    ensures EmitAll([e], m) == Emit(e, m)
  {
    assert [e][1..] == [];
    assert Emit(e, m).binary + [] == Emit(e, m).binary;
    assert Emit(e, m).structure + [] == Emit(e, m).structure;
  }

  lemma SingleLineMap(line: NumstatLine)
    ensures InsertAll(map[], LineRecords([line])) == map[KeyOf(line) := IsBinaryStats(line.added, line.deleted)]
  {
    var records := LineRecords([line]);
    assert records[1..] == [];
    assert InsertAll(map[], records) == InsertAll(map[KeyOf(line) := IsBinaryStats(line.added, line.deleted)], []);
  }

  /** The summary of a one-record status report and a one-line numstat report. */
  lemma SingleRecordSummary(e: StatusEntry, line: NumstatLine)
    requires WellFormedEntry(e) && WellFormedLine(line)
    ensures StagedChangesSummaryOf(EncodeStatus([e]), EncodeNumstat([line])) ==
      var emitted := Emit(e, map[KeyOf(line) := IsBinaryStats(line.added, line.deleted)]);
      Ok(StagedChangesSummary(emitted.binary, emitted.structure))
  {
    StatusRoundTrip([e]);
    OneEntrySummary(EncodeStatus([e]), e, line);
  }

  /**
   * A staged rename: a "renamed:" description, and a "renamed binary file:"
   * one exactly when the numstat line has "-" for both counts.
   */
  lemma RenamedFileSummary(oldPath: Bytes, newPath: Bytes, added: Bytes, deleted: Bytes)
    requires IsPathField(oldPath) && IsUtf8(oldPath) && IsPathField(newPath) && IsUtf8(newPath)
    requires IsColumn(added) && IsColumn(deleted)
    ensures StagedChangesSummaryOf(
        EncodeStatus([StatusEntry(CODE_R, SPACE, newPath, Some(oldPath))]),
        EncodeNumstat([MovedTwoColumns(added, deleted, oldPath, newPath)]))
      == Ok(StagedChangesSummary(
           if IsBinaryStats(added, deleted) then [Ascii("renamed binary file: ") + oldPath + Ascii(" to ") + newPath] else [],
           [Ascii("renamed: ") + oldPath + Ascii(" to ") + newPath]))
  {
    SingleRecordSummary(StatusEntry(CODE_R, SPACE, newPath, Some(oldPath)), MovedTwoColumns(added, deleted, oldPath, newPath));
  }

  /** A staged new file: an "added binary file:" description exactly when both counts are "-", nothing else. */
  lemma AddedFileSummary(path: Bytes, added: Bytes, deleted: Bytes)
    requires IsColumn(path) && path != [] && !IsSimilarityScore(path)
    requires IsColumn(added) && IsColumn(deleted)
    ensures StagedChangesSummaryOf(
        EncodeStatus([StatusEntry(CODE_A, SPACE, path, None)]),
        EncodeNumstat([InPlace(added, deleted, path)]))
      == Ok(StagedChangesSummary(if IsBinaryStats(added, deleted) then [Ascii("added binary file: ") + path] else [], []))
  {
    SingleRecordSummary(StatusEntry(CODE_A, SPACE, path, None), InPlace(added, deleted, path));
  }

  /** A staged deletion: a "deleted file:" description, and none in the binary list even for a binary file. */
  lemma DeletedFileSummary(path: Bytes, added: Bytes, deleted: Bytes)
    requires IsColumn(path) && path != [] && !IsSimilarityScore(path)
    requires IsColumn(added) && IsColumn(deleted)
    ensures StagedChangesSummaryOf(
        EncodeStatus([StatusEntry(CODE_D, SPACE, path, None)]),
        EncodeNumstat([InPlace(added, deleted, path)]))
      == Ok(StagedChangesSummary([], [Ascii("deleted file: ") + path]))
  {
    SingleRecordSummary(StatusEntry(CODE_D, SPACE, path, None), InPlace(added, deleted, path));
  }

  /** A staged modification: a "modified binary file:" description exactly when both counts are "-", nothing else. */
  lemma ModifiedFileSummary(path: Bytes, added: Bytes, deleted: Bytes)
    requires IsColumn(path) && path != [] && !IsSimilarityScore(path)
    requires IsColumn(added) && IsColumn(deleted)
    ensures StagedChangesSummaryOf(
        EncodeStatus([StatusEntry(CODE_M, SPACE, path, None)]),
        EncodeNumstat([InPlace(added, deleted, path)]))
      == Ok(StagedChangesSummary(if IsBinaryStats(added, deleted) then [Ascii("modified binary file: ") + path] else [], []))
  {
    SingleRecordSummary(StatusEntry(CODE_M, SPACE, path, None), InPlace(added, deleted, path));
  }

  /**
   * A staged type change: always a "type changed for:" description, and a
   * "type changed to binary:" one exactly when both counts are "-".
   */
  lemma TypeChangedFileSummary(path: Bytes, added: Bytes, deleted: Bytes)
    requires IsColumn(path) && path != [] && !IsSimilarityScore(path)
    requires IsColumn(added) && IsColumn(deleted)
    ensures StagedChangesSummaryOf(
        EncodeStatus([StatusEntry(CODE_T, SPACE, path, None)]),
        EncodeNumstat([InPlace(added, deleted, path)]))
      == Ok(StagedChangesSummary(
           if IsBinaryStats(added, deleted) then [Ascii("type changed to binary: ") + path] else [],
           [Ascii("type changed for: ") + path]))
  {
    SingleRecordSummary(StatusEntry(CODE_T, SPACE, path, None), InPlace(added, deleted, path));
  }

  /**
   * A staged copy: a "copied:" description, and a "copied binary file to:"
   * one exactly when the numstat line has "-" for both counts.
   */
  lemma CopiedFileSummary(oldPath: Bytes, newPath: Bytes, added: Bytes, deleted: Bytes)
    requires IsPathField(oldPath) && IsUtf8(oldPath) && IsPathField(newPath) && IsUtf8(newPath)
    requires IsColumn(added) && IsColumn(deleted)
    ensures StagedChangesSummaryOf(
        EncodeStatus([StatusEntry(CODE_C, SPACE, newPath, Some(oldPath))]),
        EncodeNumstat([MovedTwoColumns(added, deleted, oldPath, newPath)]))
      == Ok(StagedChangesSummary(
           if IsBinaryStats(added, deleted) then [Ascii("copied binary file to: ") + newPath] else [],
           [Ascii("copied: ") + oldPath + Ascii(" to ") + newPath]))
  {
    SingleRecordSummary(StatusEntry(CODE_C, SPACE, newPath, Some(oldPath)), MovedTwoColumns(added, deleted, oldPath, newPath));
  }

  /**
   * A copy record cut off before its old path: no "copied:" description, but
   * still a "copied binary file to:" one when both counts are "-".
   */
  lemma CopiedWithoutOldPathSummary(y: byte, path: Bytes, added: Bytes, deleted: Bytes)
    requires IsStatusCode(y) && IsColumn(path) && path != [] && !IsSimilarityScore(path)
    requires IsColumn(added) && IsColumn(deleted)
    ensures StagedChangesSummaryOf(
        Terminated([[CODE_C, y, SPACE] + path]),
        EncodeNumstat([InPlace(added, deleted, path)]))
      == Ok(StagedChangesSummary(IfBinary(IsBinaryStats(added, deleted), Ascii("copied binary file to: ") + path), []))
  {
    TruncatedRecordReport(CODE_C, y, path);
    var line := InPlace(added, deleted, path);
    OneEntrySummary(Terminated([[CODE_C, y, SPACE] + path]), StatusEntry(CODE_C, y, path, None), line);
    var m := map[KeyOf(line) := IsBinaryStats(added, deleted)];
    assert IsBinaryPath(m, path) == IsBinaryStats(added, deleted);
    EmitCopyWithoutOldPath(StatusEntry(CODE_C, y, path, None), m);
  }

  lemma EmitCopyWithoutOldPath(e: StatusEntry, m: map<Bytes, bool>)
    requires e.x == CODE_C && e.oldPath.None?
    ensures Emit(e, m) == Emission(IfBinary(IsBinaryPath(m, e.path), Ascii("copied binary file to: ") + e.path), [])
  {
  }

  /** The report of a rename or copy record cut off before its old path is read as one entry without one. */
  lemma TruncatedRecordReport(x: byte, y: byte, path: Bytes)
    requires IsRenameOrCopyCode(x) && IsStatusCode(y) && NUL !in path && IsUtf8(path)
    ensures var status := Terminated([[x, y, SPACE] + path]);
      |status| > 0 && !AllNul(status) && Entries(Fields(status)) == Ok([StatusEntry(x, y, path, None)])
  {
    var lead := [x, y, SPACE] + path;
    LeadOfEntry(x, y, path);
    MissingOldPathIsNotAnError(x, y, path);
    FieldsOfTerminated([lead]);
    assert Terminated([lead])[0] == x;
  }

  /** The summary of a status report holding one record and a one-line numstat report. */
  lemma OneEntrySummary(status: Bytes, e: StatusEntry, line: NumstatLine)
    requires |status| > 0 && !AllNul(status) && Entries(Fields(status)) == Ok([e])
    requires WellFormedLine(line)
    ensures StagedChangesSummaryOf(status, EncodeNumstat([line])) ==
      var emitted := Emit(e, map[KeyOf(line) := IsBinaryStats(line.added, line.deleted)]);
      Ok(StagedChangesSummary(emitted.binary, emitted.structure))
  {
    NumstatRoundTrip([line]);
    SingleLineMap(line);
    var m := map[KeyOf(line) := IsBinaryStats(line.added, line.deleted)];
    EmitSingle(e, m);
    EmitAtMostOne(e, m);
    SortShort(Emit(e, m).binary);
    SortShort(Emit(e, m).structure);
  }

  /** A record whose first status byte is none of 'A', 'D', 'R', 'M', 'T', 'C' adds nothing to either list. */
  lemma OtherStatusSummary(x: byte, y: byte, path: Bytes, added: Bytes, deleted: Bytes)
    requires IsStatusCode(x) && x !in {CODE_A, CODE_D, CODE_R, CODE_M, CODE_T, CODE_C}
    requires IsStatusCode(y) && IsColumn(path) && path != [] && !IsSimilarityScore(path)
    requires IsColumn(added) && IsColumn(deleted)
    ensures StagedChangesSummaryOf(
        EncodeStatus([StatusEntry(x, y, path, None)]),
        EncodeNumstat([InPlace(added, deleted, path)]))
      == Ok(EmptySummary)
  {
    SingleRecordSummary(StatusEntry(x, y, path, None), InPlace(added, deleted, path));
  }
}
