/**
 * Byte strings as the git reports deliver them: splitting on a separator byte,
 * the NUL-separated field sequence with empty fields discarded, and UTF-8
 * well-formedness (Table 3-7 of the Unicode Standard, the check Rust's
 * `str::from_utf8` performs).
 */
module Bytes {

  newtype byte = x: int | 0 <= x < 256

  type Bytes = seq<byte>

  const NUL: byte := 0
  const TAB: byte := 9

  /** The bytes of an ASCII string literal. */
  function Ascii(s: string): (r: Bytes)
    ensures |r| == |s|
  {
    seq(|s|, i requires 0 <= i < |s| => (s[i] as int % 256) as byte)
  }

  /** Text made of characters below U+0080 and without NUL, as bytes. */
  lemma AsciiText(s: string)
    requires forall i :: 0 <= i < |s| ==> 0 < s[i] as int < 0x80
    ensures IsUtf8(Ascii(s)) && NUL !in Ascii(s)
  {
    Utf8Ascii(Ascii(s));
  }

  predicate HasSuffix(s: Bytes, suffix: Bytes) {
    |suffix| <= |s| && s[|s| - |suffix|..] == suffix
  }

  predicate AllNul(s: Bytes) {
    forall i :: 0 <= i < |s| ==> s[i] == NUL
  }

  // ---------------------------------------------------------------------------
  // Splitting on a separator (Rust `split(|&b| b == sep)` on a byte slice)
  // ---------------------------------------------------------------------------

  /** The pieces of `s` between occurrences of `sep`, empty pieces included. */
  function Split(s: Bytes, sep: byte): (r: seq<Bytes>)
    ensures |r| >= 1
    ensures forall k :: 0 <= k < |r| ==> sep !in r[k]
  {
    if |s| == 0 then [[]]
    else
      var rest := Split(s[1..], sep);
      if s[0] == sep then [[]] + rest else [[s[0]] + rest[0]] + rest[1..]
  }

  /** The pieces joined back with the separator between them. */
  function Join(pieces: seq<Bytes>, sep: byte): Bytes
    requires |pieces| >= 1
  {
    if |pieces| == 1 then pieces[0] else pieces[0] + [sep] + Join(pieces[1..], sep)
  }

  lemma {:induction false} JoinSplit(s: Bytes, sep: byte)
    ensures Join(Split(s, sep), sep) == s
  {
    if |s| > 0 {
      var rest := Split(s[1..], sep);
      JoinSplit(s[1..], sep);
      if s[0] != sep {
        var r := [[s[0]] + rest[0]] + rest[1..];
        if |rest| > 1 {
          assert r[1..] == rest[1..];
        }
        assert Join(r, sep) == [s[0]] + Join(rest, sep);
      }
    }
  }

  lemma {:induction false} SplitNoSep(s: Bytes, sep: byte)
    requires sep !in s
    ensures Split(s, sep) == [s]
  {
    if |s| > 0 {
      SplitNoSep(s[1..], sep);
      assert [s[0]] + s[1..] == s;
    }
  }

  lemma {:induction false} SplitAround(x: Bytes, sep: byte, y: Bytes)
    ensures Split(x + [sep] + y, sep) == Split(x, sep) + Split(y, sep)
  {
    if |x| == 0 {
      assert x + [sep] + y == [sep] + y;
      assert ([sep] + y)[1..] == y;
    } else {
      var s := x + [sep] + y;
      assert s[1..] == x[1..] + [sep] + y;
      SplitAround(x[1..], sep, y);
    }
  }

  lemma {:induction false} SplitJoin(pieces: seq<Bytes>, sep: byte)
    requires |pieces| >= 1
    requires forall k :: 0 <= k < |pieces| ==> sep !in pieces[k]
    ensures Split(Join(pieces, sep), sep) == pieces
  {
    if |pieces| == 1 {
      SplitNoSep(pieces[0], sep);
    } else {
      SplitJoin(pieces[1..], sep);
      SplitAround(pieces[0], sep, Join(pieces[1..], sep));
      SplitNoSep(pieces[0], sep);
      assert [pieces[0]] + pieces[1..] == pieces;
    }
  }

  /** A byte that is neither the separator nor in any piece is not in their join. */
  lemma {:induction false} JoinExcludes(pieces: seq<Bytes>, sep: byte, b: byte)
    requires |pieces| >= 1 && b != sep
    requires forall k :: 0 <= k < |pieces| ==> b !in pieces[k]
    ensures b !in Join(pieces, sep)
  {
    if |pieces| > 1 {
      JoinExcludes(pieces[1..], sep, b);
    }
  }

  // ---------------------------------------------------------------------------
  // NUL-separated fields with the empty ones filtered out
  // (`split(|&b| b == 0).filter(|s| !s.is_empty())`)
  // ---------------------------------------------------------------------------

  function NonEmpty(pieces: seq<Bytes>): (r: seq<Bytes>)
    ensures forall k :: 0 <= k < |r| ==> r[k] != [] && r[k] in pieces
  {
    if |pieces| == 0 then []
    else if pieces[0] == [] then NonEmpty(pieces[1..])
    else [pieces[0]] + NonEmpty(pieces[1..])
  }

  lemma {:induction false} NonEmptyConcat(a: seq<Bytes>, b: seq<Bytes>)
    ensures NonEmpty(a + b) == NonEmpty(a) + NonEmpty(b)
  {
    if |a| > 0 {
      assert (a + b)[1..] == a[1..] + b;
      NonEmptyConcat(a[1..], b);
    } else {
      assert a + b == b;
    }
  }

  /** The fields of a NUL-separated report: every field non-empty and NUL-free. */
  function Fields(s: Bytes): (r: seq<Bytes>)
    ensures forall k :: 0 <= k < |r| ==> r[k] != [] && NUL !in r[k]
  {
    NonEmpty(Split(s, NUL))
  }

  /** A report that is empty or only NULs has no fields. */
  lemma {:induction false} FieldsAllNul(s: Bytes)
    requires AllNul(s)
    ensures Fields(s) == []
  {
    if |s| > 0 {
      assert AllNul(s[1..]);
      FieldsAllNul(s[1..]);
      var rest := Split(s[1..], NUL);
      assert s[0] == NUL;
      assert Split(s, NUL) == [[]] + rest;
      assert ([[]] + rest)[1..] == rest;
      assert NonEmpty([[]] + rest) == NonEmpty(rest);
    } else {
      assert Split(s, NUL) == [[]];
      assert NonEmpty([[]]) == NonEmpty([]);
    }
  }

  /** A report with a non-NUL byte has at least one field. */
  lemma {:induction false} FieldsNotAllNul(s: Bytes)
    requires !AllNul(s)
    ensures Fields(s) != []
  {
    var rest := Split(s[1..], NUL);
    if s[0] == NUL {
      assert !AllNul(s[1..]);
      FieldsNotAllNul(s[1..]);
      assert Split(s, NUL) == [[]] + rest;
      assert ([[]] + rest)[1..] == rest;
    } else {
      assert Split(s, NUL)[0] == [s[0]] + rest[0];
    }
  }

  /** A NUL-terminated non-empty field is the first field of what it prefixes. */
  lemma FieldsCons(f: Bytes, rest: Bytes)
    requires f != [] && NUL !in f
    ensures Fields(f + [NUL] + rest) == [f] + Fields(rest)
  {
    SplitAround(f, NUL, rest);
    SplitNoSep(f, NUL);
    NonEmptyConcat([f], Split(rest, NUL));
    assert [f][1..] == [];
  }

  /** Each field followed by a NUL, the way `-z` reports are written. */
  function Terminated(fields: seq<Bytes>): Bytes {
    if |fields| == 0 then [] else fields[0] + [NUL] + Terminated(fields[1..])
  }

  /** Reading the fields of NUL-terminated non-empty fields gives them back. */
  lemma {:induction false} FieldsOfTerminated(fields: seq<Bytes>)
    requires forall k :: 0 <= k < |fields| ==> fields[k] != [] && NUL !in fields[k]
    ensures Fields(Terminated(fields)) == fields
  {
    if |fields| == 0 {
      FieldsAllNul([]);
    } else {
      FieldsOfTerminated(fields[1..]);
      FieldsCons(fields[0], Terminated(fields[1..]));
      assert fields == [fields[0]] + fields[1..];
    }
  }

  lemma {:induction false} TerminatedConcat(a: seq<Bytes>, b: seq<Bytes>)
    ensures Terminated(a + b) == Terminated(a) + Terminated(b)
  {
    if |a| == 0 {
      assert a + b == b;
    } else {
      assert (a + b)[1..] == a[1..] + b;
      TerminatedConcat(a[1..], b);
    }
  }

  // ---------------------------------------------------------------------------
  // UTF-8 well-formedness
  // ---------------------------------------------------------------------------

  predicate IsContinuation(b: byte) {
    0x80 <= b <= 0xBF
  }

  predicate InRange(b: byte, lo: byte, hi: byte) {
    lo <= b <= hi
  }

  /** Length of the well-formed UTF-8 sequence that starts `s`, 0 when there is none. */
  function CharWidth(s: Bytes): (w: nat)
    ensures w <= |s| && w <= 4
    ensures w > 0 ==> !IsContinuation(s[0])
  {
    if |s| == 0 then 0
    else if s[0] < 0x80 then 1
    else if InRange(s[0], 0xC2, 0xDF) then
      (if |s| >= 2 && IsContinuation(s[1]) then 2 else 0)
    else if s[0] == 0xE0 then
      (if |s| >= 3 && InRange(s[1], 0xA0, 0xBF) && IsContinuation(s[2]) then 3 else 0)
    else if InRange(s[0], 0xE1, 0xEC) || InRange(s[0], 0xEE, 0xEF) then
      (if |s| >= 3 && IsContinuation(s[1]) && IsContinuation(s[2]) then 3 else 0)
    else if s[0] == 0xED then
      (if |s| >= 3 && InRange(s[1], 0x80, 0x9F) && IsContinuation(s[2]) then 3 else 0)
    else if s[0] == 0xF0 then
      (if |s| >= 4 && InRange(s[1], 0x90, 0xBF) && IsContinuation(s[2]) && IsContinuation(s[3]) then 4 else 0)
    else if InRange(s[0], 0xF1, 0xF3) then
      (if |s| >= 4 && IsContinuation(s[1]) && IsContinuation(s[2]) && IsContinuation(s[3]) then 4 else 0)
    else if s[0] == 0xF4 then
      (if |s| >= 4 && InRange(s[1], 0x80, 0x8F) && IsContinuation(s[2]) && IsContinuation(s[3]) then 4 else 0)
    else 0
  }

  /** `s` is a sequence of well-formed UTF-8 characters. */
  predicate IsUtf8(s: Bytes)
    decreases |s|
  {
    |s| == 0 || (CharWidth(s) > 0 && IsUtf8(s[CharWidth(s)..]))
  }

  /** Byte index `i` of `s` starts a character or is its end (Rust `is_char_boundary`). */
  predicate IsCharBoundary(s: Bytes, i: nat) {
    i == 0 || i == |s| || (i < |s| && !IsContinuation(s[i]))
  }

  lemma CharWidthPrefix(a: Bytes, b: Bytes)
    requires CharWidth(a) > 0
    ensures CharWidth(a + b) == CharWidth(a)
  {
    var s := a + b;
    assert forall k :: 0 <= k < |a| ==> s[k] == a[k];
  }

  /** Concatenating well-formed UTF-8 gives well-formed UTF-8. */
  lemma {:induction false} Utf8Concat(a: Bytes, b: Bytes)
    requires IsUtf8(a) && IsUtf8(b)
    ensures IsUtf8(a + b)
  {
    if |a| == 0 {
      assert a + b == b;
    } else {
      var w := CharWidth(a);
      CharWidthPrefix(a, b);
      assert (a + b)[w..] == a[w..] + b;
      Utf8Concat(a[w..], b);
    }
  }

  /** Bytes below 0x80 are one-byte characters. */
  lemma {:induction false} Utf8Ascii(s: Bytes)
    requires forall i :: 0 <= i < |s| ==> s[i] < 0x80
    ensures IsUtf8(s)
  {
    if |s| > 0 {
      Utf8Ascii(s[1..]);
    }
  }

  /** Joining well-formed UTF-8 pieces with an ASCII separator gives well-formed UTF-8. */
  lemma {:induction false} Utf8Join(pieces: seq<Bytes>, sep: byte)
    requires |pieces| >= 1 && sep < 0x80
    requires forall k :: 0 <= k < |pieces| ==> IsUtf8(pieces[k])
    ensures IsUtf8(Join(pieces, sep))
  {
    if |pieces| > 1 {
      Utf8Join(pieces[1..], sep);
      Utf8Ascii([sep]);
      Utf8Concat(pieces[0], [sep]);
      Utf8Concat(pieces[0] + [sep], Join(pieces[1..], sep));
    }
  }

  /** Well-formed UTF-8 never starts with a continuation byte. */
  lemma Utf8Start(s: Bytes)
    requires IsUtf8(s) && |s| > 0
    ensures !IsContinuation(s[0])
  {
  }
}
