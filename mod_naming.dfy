/** How ModManager (src/services/ModManager.ts) reads a display name, a version, an author
    and a category out of a mod's file name, and the regular-expression pieces those
    readings share with ModService. Each global `replace` scans left to right: where a
    match starts it is removed and the scan resumes after it, otherwise one character is
    kept. */
module ModNaming {
  import opened Wrappers
  import opened Text
  import opened Types
  import opened Paths

  // ---------------------------------------------------------------- `\[.*?\]`

  /** End (exclusive) of the lazy `.*?\]` part of a match: the first `]` at or after `j`,
      provided no line terminator comes before it (`.` does not match one). */
  function LazyTagEnd(s: string, j: nat): (r: Option<nat>)
    decreases |s| - j
    ensures r.Some? ==> j < r.value <= |s| && s[r.value - 1] == ']'
    ensures r.Some? ==> forall k :: j <= k < r.value - 1 ==> s[k] != ']' && !IsLineTerminator(s[k])
  {
    if j >= |s| then None
    else if s[j] == ']' then Some(j + 1)
    else if IsLineTerminator(s[j]) then None
    else LazyTagEnd(s, j + 1)
  }

  /** Length of the `\[.*?\]` match at the start of `s`, 0 when there is none. */
  function TagMatchLen(s: string): (n: nat)
    ensures n <= |s|
    ensures n > 0 ==> n >= 2 && s[0] == '[' && s[n - 1] == ']'
  {
    if s != [] && s[0] == '[' then
      match LazyTagEnd(s, 1)
      case Some(e) => e
      case None => 0
    else 0
  }

  /** `s.replace(/\[.*?\]/g, '')`. */
  function StripBracketTags(s: string): (r: string)
    ensures forall c :: c in r ==> c in s
    decreases |s|
  {
    if s == [] then []
    else
      var n := TagMatchLen(s);
      if n > 0 then
        assert forall c :: c in s[n..] ==> c in s;
        StripBracketTags(s[n..])
      else
        assert forall c :: c in s[1..] ==> c in s;
        [s[0]] + StripBracketTags(s[1..])
  }

  // ---------------------------------------------------------------- `v?\d+\.?\d*\.?\d*`

  /** Length of the run of digits at the start of `s`. */
  function DigitRun(s: string): (n: nat)
    ensures n <= |s|
    ensures forall k :: 0 <= k < n ==> IsDigit(s[k])
    ensures n < |s| ==> !IsDigit(s[n])
  {
    if s != [] && IsDigit(s[0]) then 1 + DigitRun(s[1..]) else 0
  }

  /** Length of the greedy `\d+\.?\d*\.?\d*` match at the start of `s`. Every part after
      `\d+` is optional, so the greedy choice at each step never has to be undone. */
  function NumberMatchLen(s: string): (n: nat)
    requires s != [] && IsDigit(s[0])
    ensures 1 <= n <= |s|
    ensures forall k :: 0 <= k < n ==> IsDigit(s[k]) || s[k] == '.'
  {
    var a := DigitRun(s);
    var b := if a < |s| && s[a] == '.' then a + 1 else a;
    var c := b + DigitRunAt(s, b);
    var d := if c < |s| && s[c] == '.' then c + 1 else c;
    d + DigitRunAt(s, d)
  }

  /** Length of the run of digits starting at index `b` of `s`. */
  function DigitRunAt(s: string, b: nat): (n: nat)
    requires b <= |s|
    ensures b + n <= |s|
    ensures forall k :: b <= k < b + n ==> IsDigit(s[k])
  {
    var n := DigitRun(s[b..]);
    assert forall k :: b <= k < b + n ==> s[k] == s[b..][k - b];
    n
  }

  /** Whether `c` matches `v` (with the `i` flag also `V`). */
  predicate IsVersionMark(c: char, ignoreCase: bool) {
    c == 'v' || (ignoreCase && c == 'V')
  }

  /** Length of the optional `v?` the greedy match takes at the start of `s`: the mark
      is kept only when a digit follows it, otherwise the engine backtracks to none. */
  function VersionMarkLen(s: string, ignoreCase: bool): (p: nat)
    ensures p <= 1
    ensures p == 1 ==> |s| >= 2 && IsDigit(s[1])
  {
    if |s| >= 2 && IsVersionMark(s[0], ignoreCase) && IsDigit(s[1]) then 1 else 0
  }

  /** Length of the `v?\d+\.?\d*\.?\d*` match at the start of `s`, 0 when there is none. */
  function VersionMatchLen(s: string, ignoreCase: bool): (n: nat)
    ensures n <= |s|
    ensures s != [] && IsDigit(s[0]) ==> n > 0
    ensures n > 0 ==> VersionMarkLen(s, ignoreCase) < n
  {
    var p := VersionMarkLen(s, ignoreCase);
    if p < |s| && IsDigit(s[p]) then p + NumberMatchLen(s[p..]) else 0
  }

  /** `s.replace(/v?\d+\.?\d*\.?\d*\/g, '')`: what is left has no digit at all. */
  function StripVersions(s: string): (r: string)
    ensures forall c :: c in r ==> c in s && !IsDigit(c)
    decreases |s|
  {
    if s == [] then []
    else
      var n := VersionMatchLen(s, false);
      if n > 0 then
        assert forall c :: c in s[n..] ==> c in s;
        StripVersions(s[n..])
      else
        assert forall c :: c in s[1..] ==> c in s;
        [s[0]] + StripVersions(s[1..])
  }

  // ---------------------------------------------------------------- `[-_]+`

  predicate IsDashOrUnderscore(c: char) { c == '-' || c == '_' }

  /** Length of the run of `-` and `_` at the start of `s`. */
  function SeparatorRun(s: string): (n: nat)
    ensures n <= |s|
    ensures s != [] && IsDashOrUnderscore(s[0]) ==> n > 0
  {
    if s != [] && IsDashOrUnderscore(s[0]) then 1 + SeparatorRun(s[1..]) else 0
  }

  /** `s.replace(/[-_]+/g, ' ')`: each run of dashes and underscores becomes one space. */
  function SeparatorsToSpaces(s: string): (r: string)
    ensures forall c :: c in r ==> (c in s || c == ' ') && !IsDashOrUnderscore(c)
    decreases |s|
  {
    if s == [] then []
    else
      var n := SeparatorRun(s);
      if n > 0 then
        assert forall c :: c in s[n..] ==> c in s;
        [' '] + SeparatorsToSpaces(s[n..])
      else
        assert forall c :: c in s[1..] ==> c in s;
        [s[0]] + SeparatorsToSpaces(s[1..])
  }

  // ---------------------------------------------------------------- extractModName

  /** The chain of ModManager.extractModName before its `|| filename` fallback. */
  function CleanedName(filename: string): string {
    Trim(SeparatorsToSpaces(StripVersions(StripBracketTags(StripExtension(filename)))))
  }

  predicate NoDigitOrSeparator(s: string) {
    forall c :: c in s ==> !IsDigit(c) && !IsDashOrUnderscore(c)
  }

  /** ModManager.extractModName: the cleaned name has no digit, `-` or `_`; when the
      cleaning leaves nothing, the file name itself is the name. */
  function ExtractModName(filename: string): (r: string)
    ensures CleanedName(filename) != [] ==> r == CleanedName(filename) && NoDigitOrSeparator(r)
    ensures CleanedName(filename) == [] ==> r == filename
  {
    var name := CleanedName(filename);
    if name != [] then name else filename
  }

  // ---------------------------------------------------------------- extractVersion

  /** The number `\d+\.?\d*\.?\d*` matches when it starts at the digit `s[k]`. */
  function NumberAt(s: string, k: nat): (r: string)
    requires k < |s| && IsDigit(s[k])
    ensures r != [] && IsDigit(r[0]) && StartsWith(s[k..], r)
  {
    var n := NumberMatchLen(s[k..]);
    assert s[k..][..n] == s[k..k + n];
    s[k..k + n]
  }

  lemma NumberAtShift(s: string, i: nat, d: nat)
    requires i + d < |s| && IsDigit(s[i + d])
    ensures NumberAt(s[i..], d) == NumberAt(s, i + d)
  {
    assert s[i..][d..] == s[i + d..];
  }

  /** The capture of a `v?(\d+\.?\d*\.?\d*)` match at the start of `t`, if one starts there. */
  function VersionCapture(t: string): (r: Option<string>)
    ensures t != [] && IsDigit(t[0]) ==> r == Some(NumberAt(t, 0))
    ensures |t| >= 2 && t[0] == 'v' && IsDigit(t[1]) ==> r == Some(NumberAt(t, 1))
    ensures r.Some? ==> (t != [] && IsDigit(t[0])) || (|t| >= 2 && t[0] == 'v' && IsDigit(t[1]))
  {
    if t != [] && IsDigit(t[0]) then Some(NumberAt(t, 0))
    else if |t| >= 2 && t[0] == 'v' && IsDigit(t[1]) then Some(NumberAt(t, 1))
    else None
  }

  /** `s.match(/v?(\d+\.?\d*\.?\d*)/)` searched from index `i`: the capture of the
      leftmost match. */
  function VersionSearch(s: string, i: nat): (r: Option<string>)
    decreases |s| - i
    ensures r.Some? ==> r.value != [] && IsDigit(r.value[0])
  {
    if i >= |s| then None
    else
      match VersionCapture(s[i..])
      case Some(v) => Some(v)
      case None => VersionSearch(s, i + 1)
  }

  /** ModManager.extractVersion. */
  function ExtractVersion(filename: string): Option<string> {
    VersionSearch(filename, 0)
  }

  /** Index of the first digit of `s` at or after `i`. */
  function FirstDigitFrom(s: string, i: nat): (r: Option<nat>)
    decreases |s| - i
    ensures r.Some? ==> i <= r.value < |s| && IsDigit(s[r.value])
    ensures r.Some? ==> forall k :: i <= k < r.value ==> !IsDigit(s[k])
    ensures r.None? ==> forall k :: i <= k < |s| ==> !IsDigit(s[k])
  {
    if i >= |s| then None
    else if IsDigit(s[i]) then Some(i)
    else FirstDigitFrom(s, i + 1)
  }

  /** The version search captures the number that starts at the first digit: whatever
      precedes that digit (a `v` included) is never part of the capture. */
  lemma {:induction false} VersionSearchAtFirstDigit(s: string, i: nat)
    ensures VersionSearch(s, i) ==
      match FirstDigitFrom(s, i)
      case None => None
      case Some(k) => Some(NumberAt(s, k))
    decreases |s| - i
  {
    if i < |s| {
      var t := s[i..];
      if IsDigit(s[i]) {
        NumberAtShift(s, i, 0);
      } else if VersionCapture(t).Some? {
        assert FirstDigitFrom(s, i + 1) == Some(i + 1);
        NumberAtShift(s, i, 1);
      } else {
        VersionSearchAtFirstDigit(s, i + 1);
      }
    }
  }

  /** extractVersion finds nothing exactly when the name has no digit; otherwise it
      returns the digit-led number that starts at the first digit. */
  lemma ExtractVersionSpec(filename: string)
    ensures ExtractVersion(filename).None? <==> forall c :: c in filename ==> !IsDigit(c)
    ensures ExtractVersion(filename).Some? ==>
      exists k :: (FirstDigitFrom(filename, 0) == Some(k) && ExtractVersion(filename) == Some(NumberAt(filename, k)))
  {
    VersionSearchAtFirstDigit(filename, 0);
    var f := FirstDigitFrom(filename, 0);
    if f.Some? {
      assert filename[f.value] in filename;
    } else {
      forall c | c in filename ensures !IsDigit(c) {
        var j :| 0 <= j < |filename| && filename[j] == c;
      }
    }
  }

  // ---------------------------------------------------------------- extractAuthor

  /** A `\[([^\]]+)\]` match spans `s[a..b+1]`: a `[`, one or more characters other than
      `]`, then the first `]`. */
  predicate AuthorRunAt(s: string, a: int, b: int) {
    0 <= a && a + 1 < b < |s| && s[a] == '[' && s[b] == ']'
    && forall k :: a < k < b ==> s[k] != ']'
  }

  /** Index of the first `]` of `s` at or after `j`. */
  function CloseBracketFrom(s: string, j: nat): (r: Option<nat>)
    decreases |s| - j
    ensures r.Some? ==> j <= r.value < |s| && s[r.value] == ']'
    ensures r.Some? ==> forall k :: j <= k < r.value ==> s[k] != ']'
    ensures r.None? ==> forall k :: j <= k < |s| ==> s[k] != ']'
  {
    if j >= |s| then None
    else if s[j] == ']' then Some(j)
    else CloseBracketFrom(s, j + 1)
  }

  /** `s.match(/\[([^\]]+)\]/)` searched from `i`: the capture of the leftmost match. */
  function AuthorSearch(s: string, i: nat): (r: Option<string>)
    decreases |s| - i
    ensures r.Some? ==> exists a, b :: (i <= a && AuthorRunAt(s, a, b) && r.value == s[a + 1..b]
      && forall a', b' :: i <= a' < a ==> !AuthorRunAt(s, a', b'))
    ensures r.None? ==> forall a, b :: i <= a ==> !AuthorRunAt(s, a, b)
  {
    if i >= |s| then None
    else
      var close := CloseBracketFrom(s, i + 1);
      if s[i] == '[' && close.Some? && close.value > i + 1 then
        assert AuthorRunAt(s, i, close.value);
        Some(s[i + 1..close.value])
      else
        var r := AuthorSearch(s, i + 1);
        assert forall b :: !AuthorRunAt(s, i, b);
        r
  }

  /** ModManager.extractAuthor: the non-empty text of the first bracketed run, never
      holding a `]`; nothing when there is no such run. */
  function ExtractAuthor(filename: string): (r: Option<string>)
    ensures r.Some? ==> r.value != [] && ']' !in r.value
    ensures r.None? <==> forall a, b :: !AuthorRunAt(filename, a, b)
  {
    AuthorCaptureChars(filename);
    AuthorSearch(filename, 0)
  }

  lemma AuthorCaptureChars(s: string)
    ensures var r := AuthorSearch(s, 0); r.Some? ==> r.value != [] && ']' !in r.value
  {
    var r := AuthorSearch(s, 0);
    if r.Some? {
      var a, b :| 0 <= a && AuthorRunAt(s, a, b) && r.value == s[a + 1..b];
      assert forall k :: 0 <= k < |r.value| ==> r.value[k] == s[a + 1 + k];
    }
  }

  // ---------------------------------------------------------------- determineCategory

  /** ModManager.determineCategory, tested in this order on the lower-cased name. */
  function DetermineCategory(filename: string): ModCategory {
    var name := Lower(filename);
    if Contains(name, "script") || EndsWith(name, ".ts4script") then Script
    else if Contains(name, "cas") || Contains(name, "hair") || Contains(name, "clothing") then Cas
    else if Contains(name, "build") || Contains(name, "buy") || Contains(name, "furniture") then BuildBuy
    else if Contains(name, "gameplay") || Contains(name, "trait") || Contains(name, "career") then Gameplay
    else if Contains(name, "override") || Contains(name, "default") then Override
    else Other
  }

  /** The categories and their keywords in priority order. */
  const CategoryKeywords: seq<(ModCategory, seq<string>)> := [
    (Script, ["script"]),
    (Cas, ["cas", "hair", "clothing"]),
    (BuildBuy, ["build", "buy", "furniture"]),
    (Gameplay, ["gameplay", "trait", "career"]),
    (Override, ["override", "default"])
  ]

  /** Some keyword of the list occurs in `name`. */
  predicate HasKeyword(name: string, keywords: seq<string>) {
    keywords != [] && (Contains(name, keywords[0]) || HasKeyword(name, keywords[1..]))
  }

  /** The first category of the table with a keyword in `name`; `Other` when none has. */
  function FirstCategory(name: string, table: seq<(ModCategory, seq<string>)>): ModCategory {
    if table == [] then Other
    else if HasKeyword(name, table[0].1) then table[0].0
    else FirstCategory(name, table[1..])
  }

  lemma EndsWithContains(s: string, t: string)
    requires EndsWith(s, t)
    ensures Contains(s, t)
  {
    assert OccursAt(s, t, |s| - |t|);
  }

  lemma HasKeywordOfThree(name: string, k1: string, k2: string, k3: string)
    ensures HasKeyword(name, [k1, k2, k3]) <==> Contains(name, k1) || Contains(name, k2) || Contains(name, k3)
  {
    assert [k1, k2, k3][1..] == [k2, k3];
    HasKeywordOfTwo(name, k2, k3);
  }

  lemma HasKeywordOfTwo(name: string, k1: string, k2: string)
    ensures HasKeyword(name, [k1, k2]) <==> Contains(name, k1) || Contains(name, k2)
  {
    assert [k1, k2][1..] == [k2];
    assert [k2][1..] == [];
    assert HasKeyword(name, [k2]) == Contains(name, k2);
  }

  /** determineCategory picks the first category of the priority table one of whose
      keywords occurs in the lower-cased name (`.ts4script` adds nothing: it holds `script`). */
  lemma DetermineCategoryByPriority(filename: string)
    ensures DetermineCategory(filename) == FirstCategory(Lower(filename), CategoryKeywords)
  {
    var name := Lower(filename);
    if EndsWith(name, ".ts4script") {
      assert EndsWith(name, "script") by { assert name[|name| - 6..] == ".ts4script"[4..]; }
      EndsWithContains(name, "script");
    }
    var t := CategoryKeywords;
    assert ["script"][1..] == [];
    assert HasKeyword(name, ["script"]) == Contains(name, "script");
    HasKeywordOfThree(name, "cas", "hair", "clothing");
    HasKeywordOfThree(name, "build", "buy", "furniture");
    HasKeywordOfThree(name, "gameplay", "trait", "career");
    HasKeywordOfTwo(name, "override", "default");
    var t1, t2, t3, t4 := t[1..], t[2..], t[3..], t[4..];
    assert t1[1..] == t2 && t2[1..] == t3 && t3[1..] == t4 && t4[1..] == [];
    assert FirstCategory(name, t4) == (if HasKeyword(name, t[4].1) then Override else Other);
    assert FirstCategory(name, t3) == (if HasKeyword(name, t[3].1) then Gameplay else FirstCategory(name, t4));
    assert FirstCategory(name, t2) == (if HasKeyword(name, t[2].1) then BuildBuy else FirstCategory(name, t3));
    assert FirstCategory(name, t1) == (if HasKeyword(name, t[1].1) then Cas else FirstCategory(name, t2));
  }

  /** The category ignores letter case. */
  lemma DetermineCategoryIgnoresCase(filename: string)
    ensures DetermineCategory(Lower(filename)) == DetermineCategory(filename)
  {
    LowerIdempotent(filename);
  }

  /** `Other` comes back exactly when no keyword of any category occurs. */
  lemma DetermineCategoryOther(filename: string)
    ensures DetermineCategory(filename) == Other <==>
      forall e :: 0 <= e < |CategoryKeywords| ==> !HasKeyword(Lower(filename), CategoryKeywords[e].1)
  {
    DetermineCategoryByPriority(filename);
    FirstCategoryOther(Lower(filename), CategoryKeywords);
  }

  lemma {:induction false} FirstCategoryOther(name: string, table: seq<(ModCategory, seq<string>)>)
    requires forall e :: 0 <= e < |table| ==> table[e].0 != Other
    ensures FirstCategory(name, table) == Other <==> forall e :: 0 <= e < |table| ==> !HasKeyword(name, table[e].1)
  {
    if table != [] {
      var rest := table[1..];
      FirstCategoryOther(name, rest);
      assert (forall e :: 0 <= e < |table| ==> !HasKeyword(name, table[e].1)) <==>
        !HasKeyword(name, table[0].1) && forall e :: 0 <= e < |rest| ==> !HasKeyword(name, rest[e].1)
      by {
        assert forall e :: 1 <= e < |table| ==> table[e] == rest[e - 1];
        assert forall e :: 0 <= e < |rest| ==> rest[e] == table[e + 1];
      }
    }
  }
}
