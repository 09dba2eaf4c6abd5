/**
 * Text operations of Rust's `str` that the diff annotator, the suggestion
 * cleanup and the prompt builder use: prefix and suffix tests,
 * `trim` (Unicode White_Space at both ends), `lines`, `join`, and decimal
 * formatting of an integer as `format!("{}", n)` writes it.
 */
module Text {

  predicate StartsWith(s: string, prefix: string) {
    |prefix| <= |s| && s[..|prefix|] == prefix
  }

  predicate EndsWith(s: string, suffix: string) {
    |suffix| <= |s| && s[|s| - |suffix|..] == suffix
  }

  /** `t` occurs in `s` as a contiguous piece (Rust `str::contains`). */
  ghost predicate Contains(s: string, t: string) {
    exists i :: OccursAt(s, t, i)
  }

  ghost predicate OccursAt(s: string, t: string, i: int) {
    0 <= i <= |s| - |t| && s[i..i + |t|] == t
  }

  // ---------------------------------------------------------------------------
  // trim
  // ---------------------------------------------------------------------------

  /** The Unicode White_Space property, which Rust's `char::is_whitespace` tests. */
  predicate IsWhitespace(c: char) {
    ('\t' <= c <= '\r') || c == ' ' || c == '\U{85}' || c == '\U{A0}' || c == '\U{1680}'
    || ('\U{2000}' <= c <= '\U{200A}') || c == '\U{2028}' || c == '\U{2029}'
    || c == '\U{202F}' || c == '\U{205F}' || c == '\U{3000}'
  }

  predicate AllWhitespace(s: string) {
    forall k :: 0 <= k < |s| ==> IsWhitespace(s[k])
  }

  /** `s` without its leading whitespace. */
  function TrimStart(s: string): (r: string)
    ensures |r| <= |s|
  {
    if |s| > 0 && IsWhitespace(s[0]) then TrimStart(s[1..]) else s
  }

  /** `s` without its trailing whitespace. */
  function TrimEnd(s: string): (r: string)
    ensures |r| <= |s|
  {
    if |s| > 0 && IsWhitespace(s[|s| - 1]) then TrimEnd(s[..|s| - 1]) else s
  }

  /** TrimStart keeps a suffix, cuts only whitespace, and stops at a character that is not. */
  lemma {:induction false} TrimStartSpec(s: string)
    ensures var r := TrimStart(s);
      r == s[|s| - |r|..] && AllWhitespace(s[..|s| - |r|]) && (r != [] ==> !IsWhitespace(r[0]))
  {
    if |s| > 0 && IsWhitespace(s[0]) {
      TrimStartSpec(s[1..]);
      var r := TrimStart(s);
      assert s[1..][|s| - 1 - |r|..] == s[|s| - |r|..];
      assert s[..|s| - |r|] == [s[0]] + s[1..][..|s| - 1 - |r|];
    }
  }

  /** TrimEnd keeps a prefix, cuts only whitespace, and stops at a character that is not. */
  lemma {:induction false} TrimEndSpec(s: string)
    ensures var r := TrimEnd(s);
      r == s[..|r|] && AllWhitespace(s[|r|..]) && (r != [] ==> !IsWhitespace(r[|r| - 1]))
  {
    if |s| > 0 && IsWhitespace(s[|s| - 1]) {
      TrimEndSpec(s[..|s| - 1]);
      var r := TrimEnd(s);
      assert s[..|s| - 1][..|r|] == s[..|r|];
      assert s[|r|..] == s[..|s| - 1][|r|..] + [s[|s| - 1]];
    }
  }

  /** Rust `str::trim`: `s` without leading and trailing whitespace. */
  function Trim(s: string): string {
    TrimEnd(TrimStart(s))
  }

  predicate IsTrimmed(s: string) {
    s == [] || (!IsWhitespace(s[0]) && !IsWhitespace(s[|s| - 1]))
  }

  /** Trim keeps a contiguous piece of its input, cuts only whitespace, and leaves nothing to cut. */
  lemma TrimSpec(s: string)
    ensures IsTrimmed(Trim(s))
    ensures exists i, j :: 0 <= i <= j <= |s| && Trim(s) == s[i..j]
              && AllWhitespace(s[..i]) && AllWhitespace(s[j..])
  {
    var t := TrimStart(s);
    var r := TrimEnd(t);
    TrimStartSpec(s);
    TrimEndSpec(t);
    var i := |s| - |t|;
    var j := i + |r|;
    assert r == s[i..j];
    assert s[j..] == t[|r|..];
    if r != [] {
      assert r[0] == t[0];
    }
  }

  /** Trimming leaves nothing exactly when the text is all whitespace. */
  lemma TrimEmpty(s: string)
    ensures Trim(s) == "" <==> AllWhitespace(s)
  {
    TrimSpec(s);
    var i, j :| 0 <= i <= j <= |s| && Trim(s) == s[i..j] && AllWhitespace(s[..i]) && AllWhitespace(s[j..]);
    if Trim(s) == "" {
      forall k | 0 <= k < |s| ensures IsWhitespace(s[k]) {
        if k < i {
          assert s[..i][k] == s[k];
        } else {
          assert s[j..][k - j] == s[k];
        }
      }
    }
  }

  /** Trimming what is already trimmed changes nothing. */
  lemma TrimTrimmed(s: string)
    requires IsTrimmed(s)
    ensures Trim(s) == s
  {
  }

  // ---------------------------------------------------------------------------
  // lines
  // ---------------------------------------------------------------------------

  /** Index of the first '\n' in `s`, or |s| when there is none. */
  function LineEnd(s: string): (k: nat)
    ensures k <= |s|
    ensures k < |s| ==> s[k] == '\n'
    ensures '\n' !in s[..k]
  {
    if |s| == 0 || s[0] == '\n' then 0
    else
      var k := LineEnd(s[1..]);
      assert s[..1 + k] == [s[0]] + s[1..][..k];
      1 + k
  }

  /** `line` without one trailing '\r'. */
  function StripCr(line: string): string {
    if |line| > 0 && line[|line| - 1] == '\r' then line[..|line| - 1] else line
  }

  /**
   * Rust `str::lines`: the pieces ended by '\n' (a "\r\n" ending loses its '\r'),
   * and a last piece without '\n' when the text does not end in one.
   */
  function Lines(s: string): seq<string>
    decreases |s|
  {
    if |s| == 0 then []
    else
      var k := LineEnd(s);
      if k == |s| then [s]
      else [StripCr(s[..k])] + Lines(s[k + 1..])
  }

  /** No line holds a '\n'. */
  lemma {:induction false} LinesHaveNoBreaks(s: string)
    ensures forall k :: 0 <= k < |Lines(s)| ==> '\n' !in Lines(s)[k]
    decreases |s|
  {
    var k := LineEnd(s);
    if |s| > 0 && k < |s| {
      LinesHaveNoBreaks(s[k + 1..]);
      assert forall c :: c in StripCr(s[..k]) ==> c in s[..k];
    }
  }

  lemma LinesCons(x: string, y: string)
    requires '\n' !in x
    ensures Lines(x + "\n" + y) == [StripCr(x)] + Lines(y)
  {
    var s := x + "\n" + y;
    LineEndAt(x, y);
    assert s[..|x|] == x;
    assert s[|x| + 1..] == y;
  }

  lemma {:induction false} LineEndAt(x: string, y: string)
    requires '\n' !in x
    ensures LineEnd(x + "\n" + y) == |x|
  {
    if |x| > 0 {
      assert (x + "\n" + y)[1..] == x[1..] + "\n" + y;
      LineEndAt(x[1..], y);
    }
  }

  /** Joining lines that hold no line break and no trailing '\r' with "\n" gives them back. */
  lemma {:induction false} LinesOfJoin(parts: seq<string>)
    requires forall k :: 0 <= k < |parts| ==> '\n' !in parts[k] && !EndsWith(parts[k], "\r")
    requires |parts| > 0 ==> parts[|parts| - 1] != ""
    ensures Lines(JoinWith(parts, "\n")) == parts
  {
    if |parts| == 1 {
      var p := parts[0];
      assert LineEnd(p) == |p| by { assert p[..|p|] == p; }
    } else if |parts| > 1 {
      LinesOfJoin(parts[1..]);
      LinesCons(parts[0], JoinWith(parts[1..], "\n"));
      assert StripCr(parts[0]) == parts[0] by {
        var p := parts[0];
        if |p| > 0 {
          assert p[|p| - 1..] == [p[|p| - 1]];
        }
      }
      assert parts == [parts[0]] + parts[1..];
    }
  }

  // ---------------------------------------------------------------------------
  // join and concatenation
  // ---------------------------------------------------------------------------

  lemma ConcatAssoc<T>(a: seq<T>, b: seq<T>, c: seq<T>)
    ensures a + b + c == a + (b + c)
  {
  }

  /** A concatenation starts with its left operand and ends with its right one. */
  lemma ConcatEnds(a: string, b: string)
    ensures StartsWith(a + b, a) && EndsWith(a + b, b)
  {
    assert (a + b)[..|a|] == a;
    assert (a + b)[|a|..] == b;
  }

  /** The last three pieces of a concatenation occur in it. */
  lemma ConcatContainsTail(a: string, b: string, c: string, d: string)
    ensures Contains(a + b + c + d, b + c + d)
  {
    var s := a + b + c + d;
    assert s[|a|..|a| + |b + c + d|] == b + c + d;
    assert OccursAt(s, b + c + d, |a|);
  }

  /** A prefix of a text `a + b` opens with `a` too. */
  lemma StartsWithShorter(s: string, a: string, b: string)
    requires StartsWith(s, a + b)
    ensures StartsWith(s, a)
  {
    assert s[..|a|] == (a + b)[..|a|];
  }

  /** A text whose last character is `c`, with a line break after it, ends with `c` and the break. */
  lemma EndsWithCharBreak(s: string, c: char)
    requires s != "" && s[|s| - 1] == c
    ensures EndsWith(s + "\n", [c] + "\n")
  {
    var t := s + "\n";
    assert t[|t| - 2..] == [c, '\n'];
  }

  /** Appending keeps a prefix a prefix. */
  lemma StartsWithAppend(s: string, t: string, u: string)
    requires StartsWith(s, t)
    ensures StartsWith(s + u, t)
  {
    assert (s + u)[..|t|] == s[..|t|];
  }

  /** Appending to both sides keeps a suffix a suffix. */
  lemma EndsWithAppend(s: string, t: string, u: string)
    requires EndsWith(s, t)
    ensures EndsWith(s + u, t + u)
  {
    assert (s + u)[|s + u| - |t + u|..] == s[|s| - |t|..] + u;
  }

  /** Rust `[String]::join(sep)`. */
  function JoinWith(parts: seq<string>, sep: string): string {
    if |parts| == 0 then ""
    else if |parts| == 1 then parts[0]
    else parts[0] + sep + JoinWith(parts[1..], sep)
  }

  /** The joined text opens with the first part and a separator when there are more. */
  lemma JoinWithFirst(parts: seq<string>, sep: string)
    requires |parts| > 1
    ensures StartsWith(JoinWith(parts, sep), parts[0] + sep)
  {
    var j := JoinWith(parts, sep);
    assert j == parts[0] + sep + JoinWith(parts[1..], sep);
    assert j[..|parts[0] + sep|] == parts[0] + sep;
  }

  /** The joined text closes with the last two parts and the separator between them. */
  lemma {:induction false} JoinWithLast(parts: seq<string>, sep: string)
    requires |parts| > 1
    ensures EndsWith(JoinWith(parts, sep), parts[|parts| - 2] + sep + parts[|parts| - 1])
  {
    var j := JoinWith(parts, sep);
    var t := parts[|parts| - 2] + sep + parts[|parts| - 1];
    if |parts| == 2 {
      assert JoinWith(parts[1..], sep) == parts[1];
      assert j == t;
    } else {
      JoinWithLast(parts[1..], sep);
      var rest := JoinWith(parts[1..], sep);
      assert j == parts[0] + sep + rest;
      assert j[|j| - |t|..] == rest[|rest| - |t|..];
    }
  }

  /** An inner part occurs in the joined text with the separators on both sides of it. */
  lemma JoinWithContainsLine(parts: seq<string>, sep: string, k: nat)
    requires 0 < k < |parts| - 1
    ensures Contains(JoinWith(parts, sep), sep + parts[k] + sep)
  {
    JoinWithContains(parts, sep, k - 1);
    var u := sep + parts[k] + sep;
    assert parts[k - 1] + sep + parts[k] + sep + parts[k + 1] == parts[k - 1] + u + parts[k + 1];
    ContainsInner(JoinWith(parts, sep), parts[k - 1], u, parts[k + 1]);
  }

  /** What occurs in a piece of a text occurs in the text. */
  lemma ContainsInner(s: string, a: string, b: string, c: string)
    requires Contains(s, a + b + c)
    ensures Contains(s, b)
  {
    var w := a + b + c;
    var i :| OccursAt(s, w, i);
    assert s[i..i + |w|] == w;
    forall k | 0 <= k < |b|
      ensures s[i + |a| + k] == b[k]
    {
      assert s[i + |a| + k] == s[i..i + |w|][|a| + k] == w[|a| + k];
    }
    assert OccursAt(s, b, i + |a|);
  }

  /** The joined text ends with a separator and the join of any proper tail of the parts. */
  lemma {:induction false} JoinWithTail(parts: seq<string>, sep: string, k: nat)
    requires 0 < k < |parts|
    ensures EndsWith(JoinWith(parts, sep), sep + JoinWith(parts[k..], sep))
  {
    var j := JoinWith(parts, sep);
    var rest := JoinWith(parts[1..], sep);
    assert j == parts[0] + sep + rest;
    var t := sep + JoinWith(parts[k..], sep);
    if k == 1 {
      assert j[|j| - |t|..] == t;
    } else {
      JoinWithTail(parts[1..], sep, k - 1);
      assert parts[1..][k - 1..] == parts[k..];
      assert j[|j| - |t|..] == rest[|rest| - |t|..];
    }
  }

  /** The joined text ends with the last three parts, each after a separator, when there are more than three. */
  lemma JoinWithLastThree(parts: seq<string>, sep: string)
    requires |parts| > 3
    ensures var n := |parts|;
      EndsWith(JoinWith(parts, sep), sep + parts[n - 3] + sep + parts[n - 2] + sep + parts[n - 1])
  {
    var n := |parts|;
    JoinWithTail(parts, sep, n - 3);
    var a, b, c := parts[n - 3], parts[n - 2], parts[n - 1];
    var last := parts[n - 3..];
    assert last[1..][1..] == [c];
    assert JoinWith(last[1..], sep) == b + sep + c;
    assert JoinWith(last, sep) == a + sep + (b + sep + c);
    assert sep + JoinWith(last, sep) == sep + a + sep + b + sep + c;
  }

  /** The joined text ends as the last part does. */
  lemma {:induction false} JoinLast(parts: seq<string>, sep: string)
    requires |parts| > 0 && parts[|parts| - 1] != ""
    ensures var j := JoinWith(parts, sep); j != "" && j[|j| - 1] == parts[|parts| - 1][|parts[|parts| - 1]| - 1]
  {
    if |parts| > 1 {
      JoinLast(parts[1..], sep);
    }
  }

  /** Each part, with its neighbours and the separators between them, occurs in the joined text. */
  lemma {:induction false} JoinWithContains(parts: seq<string>, sep: string, i: nat)
    requires i + 2 < |parts|
    ensures Contains(JoinWith(parts, sep), parts[i] + sep + parts[i + 1] + sep + parts[i + 2])
  {
    var t := parts[i] + sep + parts[i + 1] + sep + parts[i + 2];
    if i == 0 {
      JoinWithOpening(parts, sep);
      StartsWithContains(JoinWith(parts, sep), t);
    } else {
      var rest := parts[1..];
      JoinWithContains(rest, sep, i - 1);
      assert rest[i - 1] + sep + rest[i] + sep + rest[i + 1] == t;
      ContainsAfterPrefix(parts[0] + sep, JoinWith(rest, sep), t);
    }
  }

  /** The joined text opens with the first three parts and the separators between them. */
  lemma JoinWithOpening(parts: seq<string>, sep: string)
    requires |parts| >= 3
    ensures StartsWith(JoinWith(parts, sep), parts[0] + sep + parts[1] + sep + parts[2])
  {
    var j2 := JoinWith(parts[2..], sep);
    assert StartsWith(j2, parts[2]) by {
      if |parts| > 3 {
        ConcatEnds(parts[2] + sep, JoinWith(parts[3..], sep));
        assert (parts[2] + sep)[..|parts[2]|] == parts[2];
      }
    }
    assert parts[1..][1..] == parts[2..];
    var j1 := JoinWith(parts[1..], sep);
    assert j1 == parts[1] + sep + j2;
    StartsWithPrepend(parts[1] + sep, j2, parts[2]);
    assert JoinWith(parts, sep) == parts[0] + sep + j1;
    StartsWithPrepend(parts[0] + sep, j1, parts[1] + sep + parts[2]);
    assert parts[0] + sep + (parts[1] + sep + parts[2]) == parts[0] + sep + parts[1] + sep + parts[2];
  }

  /** Putting the same text in front of both keeps a prefix a prefix. */
  lemma StartsWithPrepend(x: string, s: string, t: string)
    requires StartsWith(s, t)
    ensures StartsWith(x + s, x + t)
  {
    assert (x + s)[..|x + t|] == x + s[..|t|];
  }

  lemma StartsWithContains(s: string, t: string)
    requires StartsWith(s, t)
    ensures Contains(s, t)
  {
    assert OccursAt(s, t, 0);
  }

  /** What occurs in a text occurs in it with anything put in front. */
  lemma ContainsAfterPrefix(x: string, s: string, t: string)
    requires Contains(s, t)
    ensures Contains(x + s, t)
  {
    var i :| OccursAt(s, t, i);
    assert (x + s)[|x| + i..|x| + i + |t|] == s[i..i + |t|];
    assert OccursAt(x + s, t, |x| + i);
  }

  // ---------------------------------------------------------------------------
  // decimal numbers
  // ---------------------------------------------------------------------------

  /** Rust `u32`. */
  newtype u32 = x: int | 0 <= x < 0x1_0000_0000

  predicate IsDigit(c: char) {
    '0' <= c <= '9'
  }

  /** `n` in decimal, without leading zeros (`format!("{}", n)`). */
  function Decimal(n: nat): (r: string)
    ensures |r| >= 1 && forall k :: 0 <= k < |r| ==> IsDigit(r[k])
    ensures r[0] == '0' ==> n == 0
  {
    if n < 10 then [('0' as int + n) as char]
    else Decimal(n / 10) + [('0' as int + n % 10) as char]
  }

  /** The number a string of decimal digits denotes. */
  function DecimalValue(s: string): nat
    requires forall k :: 0 <= k < |s| ==> IsDigit(s[k])
  {
    if |s| == 0 then 0
    else
      assert IsDigit(s[|s| - 1]);
      DecimalValue(s[..|s| - 1]) * 10 + (s[|s| - 1] as int - '0' as int)
  }

  lemma {:induction false} DecimalRoundTrip(n: nat)
    ensures DecimalValue(Decimal(n)) == n
  {
    if n >= 10 {
      DecimalRoundTrip(n / 10);
      var r := Decimal(n);
      assert r[..|r| - 1] == Decimal(n / 10);
    }
  }
}
