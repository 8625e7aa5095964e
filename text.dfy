/** The JavaScript string operations the services rely on, over Dafny strings
    (sequences of Unicode scalar values). Case mapping covers ASCII letters only. */
module Text {
  import opened Wrappers

  // ---------------------------------------------------------------- characters

  predicate IsUpperAscii(c: char) { 'A' <= c <= 'Z' }
  predicate IsLowerAscii(c: char) { 'a' <= c <= 'z' }

  /** `\d` of a JavaScript regular expression. */
  predicate IsDigit(c: char) { '0' <= c <= '9' }

  /** `\w` of a JavaScript regular expression without the `u` flag. */
  predicate IsWordChar(c: char) { IsUpperAscii(c) || IsLowerAscii(c) || IsDigit(c) || c == '_' }

  /** The characters `.` does not match: LineTerminator of ECMAScript. */
  predicate IsLineTerminator(c: char) {
    c == '\n' || c == '\r' || c == '\U{2028}' || c == '\U{2029}'
  }

  /** `\s` of a regular expression, and what `String.prototype.trim` strips:
      WhiteSpace and LineTerminator of ECMAScript. */
  predicate IsWhitespace(c: char) {
    || c == '\t' || c == '\U{000B}' || c == '\U{000C}' || c == ' ' || c == '\U{00A0}'
    || c == '\U{1680}' || ('\U{2000}' <= c <= '\U{200A}') || c == '\U{202F}'
    || c == '\U{205F}' || c == '\U{3000}' || c == '\U{FEFF}'
    || IsLineTerminator(c)
  }

  function LowerChar(c: char): char {
    if IsUpperAscii(c) then (c as int + 32) as char else c
  }

  function UpperChar(c: char): char {
    if IsLowerAscii(c) then (c as int - 32) as char else c
  }

  /** `s.toLowerCase()`, for ASCII letters. */
  function Lower(s: string): (r: string)
    ensures |r| == |s|
    ensures forall i :: 0 <= i < |s| ==> r[i] == LowerChar(s[i])
  {
    seq(|s|, i requires 0 <= i < |s| => LowerChar(s[i]))
  }

  lemma LowerIdempotent(s: string)
    ensures Lower(Lower(s)) == Lower(s)
  {
    assert forall i :: 0 <= i < |s| ==> LowerChar(LowerChar(s[i])) == LowerChar(s[i]);
  }

  lemma LowerAppend(a: string, b: string)
    ensures Lower(a + b) == Lower(a) + Lower(b)
  {
    assert forall i :: 0 <= i < |a + b| ==> Lower(a + b)[i] == (Lower(a) + Lower(b))[i];
  }

  /** Case-insensitive equality of two characters under ASCII folding. */
  predicate SameLetter(a: char, b: char) { LowerChar(a) == LowerChar(b) }

  // ---------------------------------------------------------------- substrings

  predicate StartsWith(s: string, p: string) { |p| <= |s| && s[..|p|] == p }

  predicate EndsWith(s: string, p: string) { |p| <= |s| && s[|s| - |p|..] == p }

  /** `t` occurs in `s` starting at index `i`. */
  predicate OccursAt(s: string, t: string, i: int) {
    0 <= i && i + |t| <= |s| && s[i..i + |t|] == t
  }

  /** `s.includes(t)`. */
  predicate Contains(s: string, t: string) {
    exists i | 0 <= i <= |s| - |t| :: OccursAt(s, t, i)
  }

  /** First occurrence of `t` in `s` at or after `from`. */
  function FindFrom(s: string, t: string, from: nat): (r: Option<nat>)
    decreases |s| - from
    ensures r.Some? ==> from <= r.value && OccursAt(s, t, r.value)
    ensures r.Some? ==> forall j :: from <= j < r.value ==> !OccursAt(s, t, j)
    ensures r.None? ==> forall j :: from <= j ==> !OccursAt(s, t, j)
  {
    if from + |t| > |s| then None
    else if s[from..from + |t|] == t then Some(from)
    else FindFrom(s, t, from + 1)
  }

  lemma FindFromContains(s: string, t: string)
    ensures FindFrom(s, t, 0).Some? <==> Contains(s, t)
  {
    var r := FindFrom(s, t, 0);
    if r.Some? {
      assert OccursAt(s, t, r.value);
    }
  }

  /** `s.replace(pat, rep)` with a string pattern: only the first occurrence is replaced. */
  function ReplaceFirst(s: string, pat: string, rep: string): (r: string)
  {
    match FindFrom(s, pat, 0)
    case None => s
    case Some(i) => s[..i] + rep + s[i + |pat|..]
  }

  lemma ReplaceFirstAbsent(s: string, pat: string, rep: string)
    requires !Contains(s, pat)
    ensures ReplaceFirst(s, pat, rep) == s
  {
    FindFromContains(s, pat);
  }

  /** `pat` has no border: no proper prefix of it is also a suffix of it, so two
      occurrences of `pat` can never overlap. */
  predicate Unbordered(pat: string) {
    forall d :: 0 < d < |pat| ==> pat[d..] != pat[..|pat| - d]
  }

  /** In `p + pat`, with `pat` unbordered and absent from `p`, no occurrence of `pat`
      starts inside `p`. */
  lemma NoOccurrenceInsidePrefix(p: string, pat: string, i: nat)
    requires Unbordered(pat) && !Contains(p, pat) && i < |p|
    ensures !OccursAt(p + pat, pat, i)
  {
    var s := p + pat;
    if i + |pat| <= |p| {
      assert s[i..i + |pat|] == p[i..i + |pat|];
      assert !OccursAt(p, pat, i);
    } else {
      var d := |p| - i;
      assert s[|p|..i + |pat|] == pat[..|pat| - d];
      assert s[i..i + |pat|][d..] == s[|p|..i + |pat|];
    }
  }

  /** Removing the first occurrence of an unbordered `pat` from `p + pat`, where `p`
      holds no occurrence of `pat`, gives back `p`. */
  lemma ReplaceFirstOfSuffix(p: string, pat: string)
    requires Unbordered(pat) && !Contains(p, pat)
    ensures ReplaceFirst(p + pat, pat, "") == p
  {
    var s := p + pat;
    assert OccursAt(s, pat, |p|) by { assert s[|p|..|p| + |pat|] == pat; }
    var r := FindFrom(s, pat, 0);
    if r.value < |p| {
      NoOccurrenceInsidePrefix(p, pat, r.value);
    }
    assert r.value == |p|;
    assert s[..|p|] == p;
    assert s[|p| + |pat|..] == [];
  }

  // ---------------------------------------------------------------- trimming

  /** Index of the first non-whitespace character of `s` at or after `i` (`|s|` if none). */
  function LeadingEnd(s: string, i: nat): (k: nat)
    requires i <= |s|
    decreases |s| - i
    ensures i <= k <= |s|
    ensures forall j :: i <= j < k ==> IsWhitespace(s[j])
    ensures k < |s| ==> !IsWhitespace(s[k])
  {
    if i < |s| && IsWhitespace(s[i]) then LeadingEnd(s, i + 1) else i
  }

  /** One past the last non-whitespace character of `s[lo..hi]` (`lo` if none). */
  function TrailingStart(s: string, lo: nat, hi: nat): (k: nat)
    requires lo <= hi <= |s|
    decreases hi
    ensures lo <= k <= hi
    ensures forall j :: k <= j < hi ==> IsWhitespace(s[j])
    ensures k > lo ==> !IsWhitespace(s[k - 1])
  {
    if hi > lo && IsWhitespace(s[hi - 1]) then TrailingStart(s, lo, hi - 1) else hi
  }

  /** `k` is the first non-whitespace index at or after `i`. */
  lemma LeadingEndAt(s: string, i: nat, k: nat)
    requires i <= k < |s| && !IsWhitespace(s[k])
    requires forall j :: i <= j < k ==> IsWhitespace(s[j])
    ensures LeadingEnd(s, i) == k
  {
  }

  /** `s.trim()`: the slice of `s` left once leading and trailing whitespace is removed. */
  function Trim(s: string): (r: string)
    ensures forall c :: c in r ==> c in s
    ensures r != [] ==> !IsWhitespace(r[0]) && !IsWhitespace(r[|r| - 1])
    ensures r == [] <==> forall i :: 0 <= i < |s| ==> IsWhitespace(s[i])
  {
    var a := LeadingEnd(s, 0);
    var b := TrailingStart(s, a, |s|);
    assert forall c :: c in s[a..b] ==> c in s;
    s[a..b]
  }

  /** `s.trim()` is the slice of `s` starting at `a`, with whitespace (or nothing) on
      either side of it. */
  lemma TrimSlice(s: string) returns (a: nat)
    ensures a + |Trim(s)| <= |s| && Trim(s) == s[a..a + |Trim(s)|]
    ensures a > 0 ==> IsWhitespace(s[a - 1])
    ensures a + |Trim(s)| < |s| ==> IsWhitespace(s[a + |Trim(s)|])
  {
    a := LeadingEnd(s, 0);
    var b := TrailingStart(s, a, |s|);
    assert Trim(s) == s[a..b];
  }

  /** A slice with only whitespace around it and none at either of its ends is the trim. */
  lemma TrimOf(s: string, x: nat, y: nat)
    requires x < y <= |s|
    requires forall j :: 0 <= j < x ==> IsWhitespace(s[j])
    requires forall j :: y <= j < |s| ==> IsWhitespace(s[j])
    requires !IsWhitespace(s[x]) && !IsWhitespace(s[y - 1])
    ensures Trim(s) == s[x..y]
  {
    var a := LeadingEnd(s, 0);
    assert a == x;
    var b := TrailingStart(s, a, |s|);
    assert b == y;
  }

  /** Trimming twice trims once. */
  lemma TrimIdempotent(s: string)
    ensures Trim(Trim(s)) == Trim(s)
  {
    var t := Trim(s);
    if t != [] {
      TrimOf(t, 0, |t|);
    }
  }

  // ---------------------------------------------------------------- numbers

  function DigitChar(d: nat): (c: char)
    requires d < 10
    ensures IsDigit(c)
  {
    ('0' as int + d) as char
  }

  /** `String(n)` for a non-negative integer: its decimal digits. */
  function NatToString(n: nat): (r: string)
    ensures |r| >= 1
    ensures forall i :: 0 <= i < |r| ==> IsDigit(r[i])
  {
    if n < 10 then [DigitChar(n)] else NatToString(n / 10) + [DigitChar(n % 10)]
  }

  // ---------------------------------------------------------------- splitting

  /** `s.split(sep)` for a one-character separator: the pieces between separators,
      empty pieces included. */
  function Split(s: string, sep: char): (r: seq<string>)
    ensures |r| >= 1
  {
    if s == [] then [""]
    else if s[0] == sep then [""] + Split(s[1..], sep)
    else var rest := Split(s[1..], sep); [[s[0]] + rest[0]] + rest[1..]
  }

  /** `parts.join(sep)`. */
  function Join(parts: seq<string>, sep: char): string
  {
    if parts == [] then ""
    else if |parts| == 1 then parts[0]
    else parts[0] + [sep] + Join(parts[1..], sep)
  }

  /** No piece of a split holds the separator, and joining the pieces gives the input back. */
  lemma {:induction false} SplitJoin(s: string, sep: char)
    ensures forall i :: 0 <= i < |Split(s, sep)| ==> sep !in Split(s, sep)[i]
    ensures Join(Split(s, sep), sep) == s
  {
    if s == [] {
    } else if s[0] == sep {
      SplitJoin(s[1..], sep);
      var rest := Split(s[1..], sep);
      assert Split(s, sep) == [""] + rest;
      assert Join([""] + rest, sep) == "" + [sep] + Join(rest, sep);
      assert s == [s[0]] + s[1..];
    } else {
      SplitJoin(s[1..], sep);
      var rest := Split(s[1..], sep);
      var r := Split(s, sep);
      assert r == [[s[0]] + rest[0]] + rest[1..];
      forall i | 0 <= i < |r| ensures sep !in r[i] {
        if i > 0 { assert r[i] == rest[i]; }
      }
      if |rest| == 1 {
        assert Join(r, sep) == [s[0]] + rest[0];
      } else {
        assert rest == [rest[0]] + rest[1..];
        assert Join(rest, sep) == rest[0] + [sep] + Join(rest[1..], sep);
        assert Join(r, sep) == [s[0]] + rest[0] + [sep] + Join(rest[1..], sep);
      }
      assert s == [s[0]] + s[1..];
    }
  }

  /** Splitting `a + [sep] + b` splits `a` and `b` separately. */
  lemma {:induction false} SplitAppend(a: string, b: string, sep: char)
    ensures Split(a + [sep] + b, sep) == Split(a, sep) + Split(b, sep)
  {
    var s := a + [sep] + b;
    if a == [] {
      assert s == [sep] + b;
      assert s[1..] == b;
    } else {
      var tail := a[1..] + [sep] + b;
      assert s == [a[0]] + tail;
      assert a == [a[0]] + a[1..];
      SplitAppend(a[1..], b, sep);
      SplitCons(a[0], tail, sep);
      SplitCons(a[0], a[1..], sep);
      ConsPieces(a[0], sep, Split(a[1..], sep), Split(b, sep));
    }
  }

  /** The step of SplitAppend on pieces alone: prefixing a character to the first piece,
      or a new empty piece, commutes with appending more pieces. */
  lemma ConsPieces(c: char, sep: char, ra: seq<string>, rb: seq<string>)
    requires |ra| >= 1
    ensures var rest := ra + rb;
      (if c == sep then [""] + rest else [[c] + rest[0]] + rest[1..])
      == (if c == sep then [""] + ra else [[c] + ra[0]] + ra[1..]) + rb
  {
    if c != sep {
      assert (ra + rb)[1..] == ra[1..] + rb;
    }
  }

  lemma SplitCons(c: char, t: string, sep: char)
    ensures Split([c] + t, sep) ==
      if c == sep then [""] + Split(t, sep)
      else [[c] + Split(t, sep)[0]] + Split(t, sep)[1..]
  {
    assert ([c] + t)[1..] == t;
  }

  /** A string without the separator is a single piece. */
  lemma {:induction false} SplitNoSeparator(s: string, sep: char)
    requires sep !in s
    ensures Split(s, sep) == [s]
  {
    if s != [] {
      SplitNoSeparator(s[1..], sep);
      assert s == [s[0]] + s[1..];
    }
  }

  // ---------------------------------------------------------------- ordering

  /** Code-point lexicographic order: `a <= b` of JavaScript strings, and the BINARY
      collation SQLite applies to `ORDER BY` on text. */
  predicate LexLe(a: string, b: string)
    decreases |a|
  {
    a == [] || (b != [] && (a[0] < b[0] || (a[0] == b[0] && LexLe(a[1..], b[1..]))))
  }

  lemma {:induction false} LexLeRefl(a: string)
    ensures LexLe(a, a)
  {
    if a != [] { LexLeRefl(a[1..]); }
  }

  lemma {:induction false} LexLeTotal(a: string, b: string)
    ensures LexLe(a, b) || LexLe(b, a)
  {
    if a != [] && b != [] && a[0] == b[0] { LexLeTotal(a[1..], b[1..]); }
  }

  lemma {:induction false} LexLeTrans(a: string, b: string, c: string)
    requires LexLe(a, b) && LexLe(b, c)
    ensures LexLe(a, c)
  {
    if a != [] && b != [] && c != [] && a[0] == b[0] == c[0] {
      LexLeTrans(a[1..], b[1..], c[1..]);
    }
  }

  lemma {:induction false} LexLeAntisym(a: string, b: string)
    requires LexLe(a, b) && LexLe(b, a)
    ensures a == b
  {
    if a != [] && b != [] {
      LexLeAntisym(a[1..], b[1..]);
      assert a == [a[0]] + a[1..] && b == [b[0]] + b[1..];
    }
  }

  // ---------------------------------------------------------------- messages

  /** `action.error.message || fallback`: an absent or empty message falls back. */
  function MessageOr(message: Option<string>, fallback: string): (r: string)
    ensures message.Some? && message.value != [] ==> r == message.value
    ensures message.None? || message.value == [] ==> r == fallback
  {
    if message.Some? && message.value != [] then message.value else fallback
  }
}
