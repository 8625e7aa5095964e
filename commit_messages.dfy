/** Reading mod changes back out of commit messages (src/services/GitManager.ts:161-217),
    and the auto-commit messages src/main/main.ts writes, `Enabled mod: <name>` and
    `Disabled mod: <name>`.

    The two patterns of extractModNameFromMessage,
      /(?:enabled|disabled|added|removed|installed|deleted)\s+mod:?\s+(.+)/i   and
      /(?:enabled|disabled|added|removed|installed|deleted)\s+(.+)/i,
    are matched as the JavaScript engine does it: the leftmost start position that
    matches wins, and at that position the greedy quantifiers backtrack. */
module CommitMessages {
  import opened Wrappers
  import opened Text
  import opened Types

  // ---------------------------------------------------------------- one match attempt

  /** `w` (lower case) occurs at `i` of `s` when ASCII letters are folded, which is what
      the `i` flag does without the `u` flag. */
  predicate MatchesAt(s: string, w: string, i: nat) {
    i + |w| <= |s| && Lower(s[i..i + |w|]) == w
  }

  /** Length of the keyword of the alternation that matches at `i`, 0 if none does. No
      keyword is a prefix of another, so at most one can match. */
  function KeywordLen(s: string, i: nat): (k: nat)
    ensures k > 0 ==> i + k <= |s|
  {
    if MatchesAt(s, "enabled", i) then 7
    else if MatchesAt(s, "disabled", i) then 8
    else if MatchesAt(s, "added", i) then 5
    else if MatchesAt(s, "removed", i) then 7
    else if MatchesAt(s, "installed", i) then 9
    else if MatchesAt(s, "deleted", i) then 7
    else 0
  }

  /** End of the run of characters `.` matches that starts at `c`. */
  function LineEnd(s: string, c: nat): (e: nat)
    requires c <= |s|
    decreases |s| - c
    ensures c <= e <= |s|
    ensures forall j :: c <= j < e ==> !IsLineTerminator(s[j])
    ensures e < |s| ==> IsLineTerminator(s[e])
  {
    if c < |s| && !IsLineTerminator(s[c]) then LineEnd(s, c + 1) else c
  }

  /** Where `.+` starts when `\s+(.+)` is tried at `q`: `\s+` first takes the whole
      whitespace run and gives characters back, one at a time, until `.` matches the next
      one; it must keep at least one. `k` is the candidate start, counting down. */
  function DotStart(s: string, q: nat, k: nat): (r: Option<nat>)
    requires q <= k <= |s|
    decreases k
    ensures r.Some? ==> q < r.value <= k && r.value < |s| && !IsLineTerminator(s[r.value])
    ensures r.Some? ==> forall j :: r.value < j <= k && j < |s| ==> IsLineTerminator(s[j])
  {
    if k <= q then None
    else if k < |s| && !IsLineTerminator(s[k]) then Some(k)
    else DotStart(s, q, k - 1)
  }

  /** The group `(.+)` when `\s+(.+)` matches at `q`. */
  function SpaceThenRest(s: string, q: nat): (r: Option<string>)
    requires q <= |s|
    ensures r.Some? ==> r.value != []
  {
    match DotStart(s, q, LeadingEnd(s, q))
    case None => None
    case Some(c) => Some(s[c..LineEnd(s, c)])
  }

  /** The group of the first pattern, `keyword \s+ mod :? \s+ (.+)`, anchored at `i`. The
      first `\s+` can only end right before `mod`; when `:?` took a colon, giving it back
      leaves `\s+` facing that colon, so that never helps. */
  function CaptureWithMod(s: string, i: nat): (r: Option<string>)
    ensures r.Some? ==> r.value != []
  {
    var k := KeywordLen(s, i);
    if k == 0 then None
    else
      var m := LeadingEnd(s, i + k);
      if m == i + k || !MatchesAt(s, "mod", m) then None
      else
        var p := m + 3;
        var q := if p < |s| && s[p] == ':' then p + 1 else p;
        SpaceThenRest(s, q)
  }

  /** The group of the second pattern, `keyword \s+ (.+)`, anchored at `i`. */
  function CaptureBare(s: string, i: nat): (r: Option<string>)
    ensures r.Some? ==> r.value != []
  {
    var k := KeywordLen(s, i);
    if k == 0 then None else SpaceThenRest(s, i + k)
  }

  // ---------------------------------------------------------------- searching

  /** `s.match(first pattern)` from `from` on: the group at the leftmost start that matches. */
  function SearchWithMod(s: string, from: nat): (r: Option<(nat, string)>)
    decreases |s| - from
    ensures r.Some? ==> from <= r.value.0 && CaptureWithMod(s, r.value.0) == Some(r.value.1)
    ensures r.Some? ==> forall j :: from <= j < r.value.0 ==> CaptureWithMod(s, j).None?
    ensures r.None? ==> forall j :: from <= j ==> CaptureWithMod(s, j).None?
  {
    if from > |s| then None
    else match CaptureWithMod(s, from)
      case Some(g) => Some((from, g))
      case None => SearchWithMod(s, from + 1)
  }

  /** `s.match(second pattern)` from `from` on. */
  function SearchBare(s: string, from: nat): (r: Option<(nat, string)>)
    decreases |s| - from
    ensures r.Some? ==> from <= r.value.0 && CaptureBare(s, r.value.0) == Some(r.value.1)
    ensures r.Some? ==> forall j :: from <= j < r.value.0 ==> CaptureBare(s, j).None?
    ensures r.None? ==> forall j :: from <= j ==> CaptureBare(s, j).None?
  {
    if from > |s| then None
    else match CaptureBare(s, from)
      case Some(g) => Some((from, g))
      case None => SearchBare(s, from + 1)
  }

  /** extractModNameFromMessage: the trimmed group of the first pattern that matches
      anywhere in the message, the `mod:` pattern first; null when neither matches. The
      group is never empty, so a match always ends the loop, even when the trimmed
      name is blank. */
  function ExtractModName(message: string): (r: Option<string>)
    ensures SearchWithMod(message, 0).Some? ==> r == Some(Trim(SearchWithMod(message, 0).value.1))
    ensures SearchWithMod(message, 0).None? && SearchBare(message, 0).Some? ==>
      r == Some(Trim(SearchBare(message, 0).value.1))
    ensures r.None? <==> forall i :: CaptureWithMod(message, i).None? && CaptureBare(message, i).None?
  {
    match SearchWithMod(message, 0)
    case Some(m) => Some(Trim(m.1))
    case None =>
      match SearchBare(message, 0)
      case Some(m) => Some(Trim(m.1))
      case None => None
  }

  // ---------------------------------------------------------------- parsing

  /** The change recorded under `action`, when the message names a mod at all. */
  function ChangeNamed(message: string, action: ModAction): (r: seq<ModChange>)
    ensures |r| <= 1
    ensures forall c :: c in r ==> c.modId != [] && c.action == action
  {
    match ExtractModName(message)
    case Some(name) => if name != [] then [ModChange(name, action)] else []
    case None => []
  }

  /** The action the first keyword the lower-cased message contains selects, in the order
      `enabled`, `disabled`, `added`/`installed`, `removed`/`deleted`. */
  function KeywordAction(lower: string): (r: Option<ModAction>)
    ensures r != Some(Updated)
    ensures r.None? <==> (!Contains(lower, "enabled") && !Contains(lower, "disabled") && !Contains(lower, "added")
      && !Contains(lower, "installed") && !Contains(lower, "removed") && !Contains(lower, "deleted"))
    ensures Contains(lower, "enabled") ==> r == Some(Enabled)
    ensures r == Some(Disabled) <==> Contains(lower, "disabled") && !Contains(lower, "enabled")
  {
    if Contains(lower, "enabled") then Some(Enabled)
    else if Contains(lower, "disabled") then Some(Disabled)
    else if Contains(lower, "added") || Contains(lower, "installed") then Some(Added)
    else if Contains(lower, "removed") || Contains(lower, "deleted") then Some(Removed)
    else None
  }

  /** parseModChanges: at most one change, named by extractModNameFromMessage and never
      with an empty id, under the action the keyword priority selects. */
  function ParseModChanges(message: string): (r: seq<ModChange>)
    ensures |r| <= 1
    ensures forall c :: c in r ==> c.modId != []
    ensures r != [] ==> ExtractModName(message) == Some(r[0].modId)
    ensures r != [] ==> Some(r[0].action) == KeywordAction(Lower(message))
    ensures KeywordAction(Lower(message)).Some? && ExtractModName(message).Some? && ExtractModName(message).value != []
      ==> |r| == 1
  {
    match KeywordAction(Lower(message))
    case None => []
    case Some(action) => ChangeNamed(message, action)
  }

  // ---------------------------------------------------------------- the round trip

  /** The message main.ts commits after a toggle. */
  function ToggleCommitMessage(enabled: bool, name: string): (m: string)
    ensures m == (if enabled then "Enabled mod: " else "Disabled mod: ") + name
  {
    (if enabled then "Enabled mod: " else "Disabled mod: ") + name
  }

  predicate SingleLine(s: string) {
    forall i :: 0 <= i < |s| ==> !IsLineTerminator(s[i])
  }

  /** The group after `prefix` (which ends in whitespace) is the name without its leading
      whitespace, and trimming it gives the trimmed name. */
  lemma RestAfterPrefix(prefix: string, name: string)
    requires |prefix| > 0 && prefix[|prefix| - 1] == ' '
    requires SingleLine(name) && Trim(name) != []
    ensures var s := prefix + name; var q := |prefix| - 1;
      SpaceThenRest(s, q).Some? && Trim(SpaceThenRest(s, q).value) == Trim(name)
  {
    var s := prefix + name;
    var q := |prefix| - 1;
    var a := LeadingEnd(name, 0);
    var b := TrailingStart(name, a, |name|);
    assert Trim(name) == name[a..b];
    assert a < b;
    var e := |prefix| + a;
    forall j | q <= j < e ensures IsWhitespace(s[j]) {
      if j >= |prefix| {
        assert s[j] == name[j - |prefix|];
      }
    }
    assert s[e] == name[a];
    LeadingEndAt(s, q, e);
    assert DotStart(s, q, e) == Some(e);
    forall j | e <= j < |s| ensures !IsLineTerminator(s[j]) {
      assert s[j] == name[j - |prefix|];
    }
    assert LineEnd(s, e) == |s|;
    var g := s[e..];
    assert g == name[a..];
    assert s[e..LineEnd(s, e)] == g;
    assert DotStart(s, q, LeadingEnd(s, q)) == Some(e);
    assert SpaceThenRest(s, q) == Some(g);
    assert g[..b - a] == name[a..b];
    TrimOf(g, 0, b - a);
  }

  /** `Enabled mod: N`, for a one-line N that is not blank, reads back as enabling trim(N). */
  lemma EnabledRoundTrip(name: string)
    requires SingleLine(name) && Trim(name) != []
    ensures ParseModChanges(ToggleCommitMessage(true, name)) == [ModChange(Trim(name), Enabled)]
  {
    var prefix := "Enabled mod: ";
    var s := prefix + name;
    assert s[..7] == "Enabled";
    assert MatchesAt(s, "enabled", 0);
    assert KeywordLen(s, 0) == 7;
    assert LeadingEnd(s, 7) == 8 by { assert s[7] == ' ' && s[8] == 'm'; }
    assert s[8..11] == "mod";
    assert MatchesAt(s, "mod", 8);
    assert s[11] == ':';
    RestAfterPrefix(prefix, name);
    assert CaptureWithMod(s, 0) == SpaceThenRest(s, 12);
    assert ExtractModName(s) == Some(Trim(name));
    assert Lower(s)[0..7] == "enabled";
    assert OccursAt(Lower(s), "enabled", 0);
  }

  /** The lower-cased message holds `disabled`; its prefix `Disabled mod: ` holds no
      `enabled` and cannot complete one. */
  lemma DisabledMessageKeywords(name: string)
    requires !Contains(Lower(name), "enabled")
    ensures Contains(Lower("Disabled mod: " + name), "disabled")
    ensures !Contains(Lower("Disabled mod: " + name), "enabled")
  {
    var prefix := "Disabled mod: ";
    var lower := Lower(prefix + name);
    LowerAppend(prefix, name);
    var lp := Lower(prefix);
    assert lp == "disabled mod: ";
    forall i | 0 <= i <= |lower| - 7 ensures !OccursAt(lower, "enabled", i) {
      if i < |prefix| {
        assert lower[i] == lp[i] && lower[i + 1] == (lp + Lower(name))[i + 1];
        assert lp[i] != 'e' || (lp + Lower(name))[i + 1] != 'n';
      } else {
        assert lower[i..i + 7] == Lower(name)[i - |prefix|..i - |prefix| + 7];
        assert !OccursAt(Lower(name), "enabled", i - |prefix|);
      }
    }
    assert lower[0..8] == lp[0..8] == "disabled";
    assert OccursAt(lower, "disabled", 0);
  }

  /** `Disabled mod: N` names trim(N). */
  lemma DisabledName(name: string)
    requires SingleLine(name) && Trim(name) != []
    ensures ExtractModName("Disabled mod: " + name) == Some(Trim(name))
  {
    var prefix := "Disabled mod: ";
    var s := prefix + name;
    assert s[..8] == "Disabled";
    assert !MatchesAt(s, "enabled", 0) by { assert LowerChar(s[0]) == 'd'; }
    assert MatchesAt(s, "disabled", 0);
    assert KeywordLen(s, 0) == 8;
    assert LeadingEnd(s, 8) == 9 by { assert s[8] == ' ' && s[9] == 'm'; }
    assert s[9..12] == "mod";
    assert MatchesAt(s, "mod", 9);
    assert s[12] == ':';
    RestAfterPrefix(prefix, name);
    assert CaptureWithMod(s, 0) == SpaceThenRest(s, 13);
  }

  /** `Disabled mod: N` reads back as disabling trim(N), as long as N does not itself hold
      `enabled` in any letter case, which would win the keyword priority. */
  lemma DisabledRoundTrip(name: string)
    requires SingleLine(name) && Trim(name) != []
    requires !Contains(Lower(name), "enabled")
    ensures ParseModChanges(ToggleCommitMessage(false, name)) == [ModChange(Trim(name), Disabled)]
  {
    var s := "Disabled mod: " + name;
    DisabledName(name);
    DisabledMessageKeywords(name);
    assert ToggleCommitMessage(false, name) == s;
    assert KeywordAction(Lower(s)) == Some(Disabled);
  }
}
