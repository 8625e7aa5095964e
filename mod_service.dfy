/** ModService (src/services/ModService.ts): the scan of the Mods directory into `ModFile`
    records saved in the mod table, the display name it derives from a file name, and
    toggling or deleting a stored mod by renaming or unlinking its file. Record ids
    (`generateId`) come from `mint`, and the `new Date()` stamp of a scan is `now`. */
module ModService {
  import opened Wrappers
  import opened Text
  import opened Types
  import opened Paths
  import opened FileSystem
  import opened SharedUtils
  import opened ModNaming
  import opened DatabaseService
  import ModManager

  const DisabledSuffix := ModManager.DisabledSuffix

  // ---------------------------------------------------------------- extractModName

  /** Length of the `\.(package|ts4script|cfg)$` match (any letter case) at the end of `s`,
      0 when there is none. The three alternatives end differently, so at most one fits. */
  function ModExtensionLen(s: string): (n: nat)
    ensures n <= |s|
    ensures n > 0 ==> s[|s| - n] == '.'
  {
    var l := Lower(s);
    if EndsWith(l, ".package") then assert l[|l| - 8] == '.'; 8
    else if EndsWith(l, ".ts4script") then assert l[|l| - 10] == '.'; 10
    else if EndsWith(l, ".cfg") then assert l[|l| - 4] == '.'; 4
    else 0
  }

  /** Length of the `[-_](v?\d+\.?\d*\.?\d*)` match (case-insensitive, so `V` counts as
      `v`) starting at `s[i]`, 0 when none starts there. */
  function VersionTagLen(s: string, i: nat): (n: nat)
    requires i <= |s|
    ensures i + n <= |s|
    ensures n > 0 ==> n >= 2 && IsDashOrUnderscore(s[i])
  {
    if i < |s| && IsDashOrUnderscore(s[i]) then
      var v := VersionMatchLen(s[i + 1..], true);
      if v > 0 then 1 + v else 0
    else 0
  }

  /** Where the leftmost version tag at or after `i` starts. */
  function FirstVersionTag(s: string, i: nat): (r: Option<nat>)
    requires i <= |s|
    decreases |s| - i
    ensures r.Some? ==> i <= r.value < |s| && VersionTagLen(s, r.value) > 0
  {
    if i == |s| then None
    else if VersionTagLen(s, i) > 0 then Some(i)
    else FirstVersionTag(s, i + 1)
  }

  /** `s.replace(/[-_](v?\d+\.?\d*\.?\d*)/i, '')`: the first version tag goes. */
  function StripFirstVersionTag(s: string): (r: string)
    ensures |r| <= |s|
  {
    match FirstVersionTag(s, 0)
    case None => s
    case Some(i) => s[..i] + s[i + VersionTagLen(s, i)..]
  }

  /** `s.replace(/[-_]/g, ' ')`. */
  function DashesToSpaces(s: string): (r: string)
    ensures |r| == |s|
    ensures forall i :: 0 <= i < |s| ==> r[i] == (if IsDashOrUnderscore(s[i]) then ' ' else s[i])
  {
    seq(|s|, i requires 0 <= i < |s| => if IsDashOrUnderscore(s[i]) then ' ' else s[i])
  }

  /** Where `\b\w` matches: a word character at the start or after a non-word character. */
  predicate WordStart(s: string, i: nat)
    requires i < |s|
  {
    IsWordChar(s[i]) && (i == 0 || !IsWordChar(s[i - 1]))
  }

  /** `s.replace(/\b\w/g, c => c.toUpperCase())`. */
  function CapitalizeWords(s: string): (r: string)
    ensures |r| == |s|
    ensures forall i :: 0 <= i < |s| ==> r[i] == (if WordStart(s, i) then UpperChar(s[i]) else s[i])
  {
    seq(|s|, i requires 0 <= i < |s| => if WordStart(s, i) then UpperChar(s[i]) else s[i])
  }

  /** Upper-casing the first letter of each word keeps word characters word characters,
      leaves no word starting with a lower-case letter, and changes nothing else. */
  lemma CapitalizedAt(s: string, k: nat)
    requires k < |s|
    ensures var r := CapitalizeWords(s);
      && (IsWordChar(r[k]) <==> IsWordChar(s[k]))
      && (WordStart(s, k) ==> !IsLowerAscii(r[k]))
      && (!WordStart(s, k) ==> r[k] == s[k])
  {
  }

  /** The chain of ModService.extractModName before its `|| fileName` fallback. */
  function ServiceCleanedName(fileName: string): string {
    var noExtension := fileName[..|fileName| - ModExtensionLen(fileName)];
    Trim(CapitalizeWords(DashesToSpaces(StripFirstVersionTag(noExtension))))
  }

  predicate NoDashOrUnderscore(s: string) {
    forall c :: c in s ==> !IsDashOrUnderscore(c)
  }

  /** ModService.extractModName: the cleaned name has no `-` or `_`; when cleaning leaves
      only whitespace, the file name itself is the name. */
  function ServiceModName(fileName: string): (r: string)
    ensures ServiceCleanedName(fileName) != [] ==> r == ServiceCleanedName(fileName) && NoDashOrUnderscore(r)
    ensures ServiceCleanedName(fileName) == [] ==> r == fileName
  {
    var name := ServiceCleanedName(fileName);
    if name != [] then name else fileName
  }

  /** Trimming cuts only at whitespace, which is no word character, so a word start of
      the trimmed string is a word start of the string it came from. */
  lemma TrimKeepsWordStarts(c: string) returns (a: nat)
    ensures a + |Trim(c)| <= |c|
    ensures forall i :: 0 <= i < |Trim(c)| ==> Trim(c)[i] == c[a + i]
    ensures forall i :: 0 <= i < |Trim(c)| && WordStart(Trim(c), i) ==> WordStart(c, a + i)
  {
    var r := Trim(c);
    a := TrimSlice(c);
    forall i | 0 <= i < |r| && WordStart(r, i) ensures WordStart(c, a + i) {
      var k := a + i;
      if k > 0 {
        if i > 0 {
          assert r[i - 1] == c[k - 1];
        } else {
          WhitespaceIsNoWordChar(c[k - 1]);
        }
      }
    }
  }

  lemma WhitespaceIsNoWordChar(ch: char)
    requires IsWhitespace(ch)
    ensures !IsWordChar(ch)
  {
  }

  /** Every word of a trimmed, capitalised string starts with a character that is not a
      lower-case letter. */
  lemma TrimCapitalised(t: string)
    ensures var r := Trim(CapitalizeWords(t));
      forall i :: 0 <= i < |r| && WordStart(r, i) ==> !IsLowerAscii(r[i])
  {
    var c := CapitalizeWords(t);
    var r := Trim(c);
    var a := TrimKeepsWordStarts(c);
    forall i | 0 <= i < |r| && WordStart(r, i) ensures !IsLowerAscii(r[i]) {
      var k := a + i;
      CapitalizedAt(t, k);
      if k > 0 {
        CapitalizedAt(t, k - 1);
      }
      assert WordStart(t, k);
    }
  }

  /** ModService.extractModName capitalises: no word of a cleaned name starts with a
      lower-case letter. */
  lemma ServiceNameCapitalised(fileName: string)
    requires ServiceCleanedName(fileName) != []
    ensures var r := ServiceModName(fileName);
      forall i :: 0 <= i < |r| && WordStart(r, i) ==> !IsLowerAscii(r[i])
  {
    var noExtension := fileName[..|fileName| - ModExtensionLen(fileName)];
    TrimCapitalised(DashesToSpaces(StripFirstVersionTag(noExtension)));
  }

  // ---------------------------------------------------------------- scanDirectory

  /** The scan's extension test: the lower-cased extension is a mod extension or `.disabled`. */
  predicate IsCandidateName(name: string) {
    var extension := Lower(ExtName(name));
    extension in ModFileExtensions || extension == DisabledSuffix
  }

  /** The paths one directory entry contributes. */
  function CandidateEntry(dir: string, e: Entry): seq<string>
    decreases e
  {
    match e
    case DirEntry(name, contents) => CandidateListing(JoinPath(dir, name), contents)
    case FileEntry(name) => if IsCandidateName(name) then [JoinPath(dir, name)] else []
    case OtherEntry(_) => []
  }

  /** The paths a run of directory entries contributes, in order. */
  function CandidateEntries(dir: string, entries: seq<Entry>): seq<string>
    decreases entries
  {
    if entries == [] then []
    else CandidateEntries(dir, entries[..|entries| - 1]) + CandidateEntry(dir, entries[|entries| - 1])
  }

  /** The paths scanning a directory with this `readdir` outcome yields: nothing when it
      cannot be read. */
  function CandidateListing(dir: string, listing: Listing): seq<string>
    decreases listing
  {
    match listing
    case Unreadable => []
    case Readable(entries) => CandidateEntries(dir, entries)
  }

  /** Every path the scan yields names a file that passed the extension test. */
  lemma {:induction false} CandidatesPassTest(dir: string, entries: seq<Entry>)
    requires ModManager.EntriesWellFormed(entries)
    ensures forall p :: p in CandidateEntries(dir, entries) ==> IsCandidateName(BaseName(p))
    decreases entries
  {
    if entries != [] {
      CandidatesPassTest(dir, entries[..|entries| - 1]);
      CandidateEntryPassesTest(dir, entries[|entries| - 1]);
    }
  }

  lemma {:induction false} CandidateEntryPassesTest(dir: string, e: Entry)
    requires e.name != [] && Separator !in e.name
    requires e.DirEntry? ==> ModManager.NamesWellFormed(e.contents)
    ensures forall p :: p in CandidateEntry(dir, e) ==> IsCandidateName(BaseName(p))
    decreases e
  {
    match e {
      case DirEntry(name, Readable(sub)) => CandidatesPassTest(JoinPath(dir, name), sub);
      case DirEntry(_, Unreadable) =>
      case FileEntry(name) => BaseNameOfEntry(dir, name);
      case OtherEntry(_) =>
    }
  }

  lemma CandidateEntriesStep(dir: string, entries: seq<Entry>, i: nat)
    requires i < |entries|
    ensures CandidateEntries(dir, entries[..i + 1]) == CandidateEntries(dir, entries[..i]) + CandidateEntry(dir, entries[i])
  {
    assert entries[..i + 1][..i] == entries[..i];
  }

  /** ModService.scanDirectory on a directory whose `readdir` gives `listing`. */
  method ScanDirectory(dirPath: string, listing: Listing) returns (files: seq<string>)
    ensures files == CandidateListing(dirPath, listing)
    decreases listing, 1
  {
    files := [];
    match listing {
      case Unreadable =>
        // readdir threw: the scan logs a warning and yields nothing
      case Readable(entries) =>
        for i := 0 to |entries|
          invariant files == CandidateEntries(dirPath, entries[..i])
        {
          CandidateEntriesStep(dirPath, entries, i);
          var more := ScanDirectoryEntry(dirPath, entries[i]);
          files := files + more;
        }
        assert entries[..|entries|] == entries;
    }
  }

  /** One turn of the scan loop: recurse into a directory, keep a file that passes the test. */
  method ScanDirectoryEntry(dirPath: string, entry: Entry) returns (files: seq<string>)
    ensures files == CandidateEntry(dirPath, entry)
    decreases entry, 0
  {
    var fullPath := JoinPath(dirPath, entry.name);
    files := [];
    match entry {
      case DirEntry(_, contents) =>
        files := ScanDirectory(fullPath, contents);
      case FileEntry(name) =>
        var extension := Lower(ExtName(name));
        if extension in ModFileExtensions || extension == DisabledSuffix {
          files := [fullPath];
        }
      case OtherEntry(_) =>
    }
  }

  // ---------------------------------------------------------------- createModFromFile

  /** The extension the mod type is read from: that of the name without its first
      `.disabled` when the name ends in `.disabled`, else the name's own. */
  function ActualExtension(fileName: string): string {
    if EndsWith(fileName, DisabledSuffix) then ExtName(ReplaceFirst(fileName, DisabledSuffix, ""))
    else ExtName(fileName)
  }

  /** ModService.createModFromFile together with extractModMetadata: nothing when `stat`
      fails or the actual extension is not a mod extension; otherwise a record that is
      enabled exactly when the name does not end in `.disabled`, and that only a script
      mod gets an author for. */
  function CreateModFromFile(filePath: string, stat: Option<FileData>, id: string, now: int): (r: Option<ModFile>)
    ensures r.Some? <==> stat.Some? && Lower(ActualExtension(BaseName(filePath))) in ModFileExtensions
    ensures r.Some? ==> var fileName := BaseName(filePath);
      && r.value.id == id && r.value.path == filePath
      && (r.value.enabled <==> !EndsWith(fileName, DisabledSuffix))
      && r.value.fileName == (if r.value.enabled then fileName else ReplaceFirst(fileName, DisabledSuffix, ""))
      && r.value.name == ServiceModName(r.value.fileName)
      && r.value.kind == GetModTypeFromExtension(ActualExtension(fileName))
      && r.value.author == (if r.value.kind == ScriptMod then Some("Script Mod Author") else None)
      && r.value.version == None && r.value.description == None
      && r.value.fileSize == stat.value.size && r.value.dateModified == stat.value.mtime
      && r.value.dateAdded == now
  {
    match stat
    case None => None
    case Some(stats) =>
      var fileName := BaseName(filePath);
      var extension := ExtName(fileName);
      var isDisabled := EndsWith(fileName, DisabledSuffix);
      var actualFileName := if isDisabled then ReplaceFirst(fileName, DisabledSuffix, "") else fileName;
      var actualExtension := if isDisabled then ExtName(actualFileName) else extension;
      if Lower(actualExtension) !in ModFileExtensions then None
      else
        var kind := GetModTypeFromExtension(actualExtension);
        Some(ModFile(
          id := id,
          name := ServiceModName(actualFileName),
          fileName := actualFileName,
          path := filePath,
          kind := kind,
          enabled := !isDisabled,
          version := None,
          author := if kind == ScriptMod then Some("Script Mod Author") else None,
          description := None,
          fileSize := stats.size,
          dateAdded := now,
          dateModified := stats.mtime,
          thumbnail := None,
          conflicts := None,
          dependencies := None))
  }

  /** The records the scan loop creates from `paths`, in order: a path whose record cannot
      be created is skipped. */
  function Created(paths: seq<string>, files: map<string, FileData>, mint: string -> string, now: int): (r: seq<ModFile>)
    ensures |r| <= |paths|
  {
    if paths == [] then []
    else
      var p := paths[|paths| - 1];
      Created(paths[..|paths| - 1], files, mint, now)
        + match CreateModFromFile(p, ModManager.StatOf(files, p), mint(p), now)
          case Some(m) => [m]
          case None => []
  }

  lemma CreatedStep(paths: seq<string>, i: nat, files: map<string, FileData>, mint: string -> string, now: int)
    requires i < |paths|
    ensures Created(paths[..i + 1], files, mint, now) == Created(paths[..i], files, mint, now)
      + match CreateModFromFile(paths[i], ModManager.StatOf(files, paths[i]), mint(paths[i]), now)
        case Some(m) => [m]
        case None => []
  {
    assert paths[..i + 1][..i] == paths[..i];
  }

  /** The mod table after saving `mods` one after another. */
  function SavedAll(table: map<string, ModRow>, mods: seq<ModFile>): (r: map<string, ModRow>)
    ensures r.Keys == table.Keys + set m | m in mods :: m.id
  {
    if mods == [] then table
    else
      var r := Saved(SavedAll(table, mods[..|mods| - 1]), mods[|mods| - 1]);
      assert forall m :: m in mods ==> m in mods[..|mods| - 1] || m == mods[|mods| - 1];
      r
  }

  predicate DistinctIds(mods: seq<ModFile>) {
    forall i, j :: 0 <= i < j < |mods| ==> mods[i].id != mods[j].id
  }

  /** After saving records with distinct ids, each reads back as saved. */
  lemma {:induction false} SavedAllReadsBack(table: map<string, ModRow>, mods: seq<ModFile>)
    requires DistinctIds(mods)
    ensures forall i :: 0 <= i < |mods| ==> Find(SavedAll(table, mods), mods[i].id) == Some(mods[i])
  {
    if mods != [] {
      var init := mods[..|mods| - 1];
      var last := mods[|mods| - 1];
      SavedAllReadsBack(table, init);
      forall i | 0 <= i < |mods| ensures Find(SavedAll(table, mods), mods[i].id) == Some(mods[i]) {
        if i < |mods| - 1 {
          assert mods[i] == init[i];
          assert mods[i].id != last.id;
        }
      }
    }
  }

  // ---------------------------------------------------------------- toggleMod, deleteMod

  /** The database table and the file table the service works on together. */
  datatype Store = Store(mods: map<string, ModRow>, files: map<string, FileData>)

  datatype ToggleResult = ToggleResult(enabled: bool, message: string)

  /** The path a toggle moves the file of `mod` to: enabling removes the first `.disabled`
      of a path that ends in it, disabling appends `.disabled` to a path that lacks it, and
      otherwise the path stays. */
  function TogglePath(mod: ModFile): (p: string)
    ensures !mod.enabled && !EndsWith(mod.path, DisabledSuffix) ==> p == mod.path
    ensures mod.enabled && EndsWith(mod.path, DisabledSuffix) ==> p == mod.path
    ensures mod.enabled && !EndsWith(mod.path, DisabledSuffix) ==> p == mod.path + DisabledSuffix
    ensures !mod.enabled && EndsWith(mod.path, DisabledSuffix) ==> p == ReplaceFirst(mod.path, DisabledSuffix, "")
  {
    if !mod.enabled then
      if EndsWith(mod.path, DisabledSuffix) then ReplaceFirst(mod.path, DisabledSuffix, "") else mod.path
    else
      if !EndsWith(mod.path, DisabledSuffix) then mod.path + DisabledSuffix else mod.path
  }

  /** Whether a toggle renames the file of `mod`. */
  predicate ToggleRenames(mod: ModFile) {
    if !mod.enabled then EndsWith(mod.path, DisabledSuffix) else !EndsWith(mod.path, DisabledSuffix)
  }

  /** A toggle renames exactly when it changes the path: removing the first `.disabled`
      of a path that holds one shortens it. */
  lemma TogglePathChanges(mod: ModFile)
    ensures ToggleRenames(mod) <==> TogglePath(mod) != mod.path
  {
    if !mod.enabled && EndsWith(mod.path, DisabledSuffix) {
      var s := mod.path;
      assert OccursAt(s, DisabledSuffix, |s| - |DisabledSuffix|);
      FindFromContains(s, DisabledSuffix);
      assert |TogglePath(mod)| < |s|;
    }
  }

  /** `Mod ${newEnabled ? 'enabled' : 'disabled'} successfully`. */
  function ToggleMessage(enabled: bool): string {
    if enabled then "Mod enabled successfully" else "Mod disabled successfully"
  }

  /** toggleMod on an open database. `staleSave` selects how the record is written back
      after a rename: as written (true) the record read before the toggle, with its old
      `enabled`, gets only the new path; corrected (false) it gets the new flag too. */
  function ToggleEffect(s: Store, dirs: set<string>, locked: set<string>, modId: string, staleSave: bool): (r: (Result<ToggleResult>, Store))
    ensures Find(s.mods, modId).None? ==> r == (Failure("Mod not found"), s)
    ensures r.0.Failure? ==> r.1 == s
    ensures r.0.Success? ==> Find(s.mods, modId).Some? && r.0.value.enabled == !Find(s.mods, modId).value.enabled
    ensures r.0.Success? ==> r.1.mods.Keys == s.mods.Keys
    ensures r.0.Success? ==> forall other :: other != modId ==> Find(r.1.mods, other) == Find(s.mods, other)
    ensures r.0.Success? && ToggleRenames(Find(s.mods, modId).value) ==>
      Find(s.mods, modId).value.path in s.files && TogglePath(Find(s.mods, modId).value) !in dirs
  {
    match Find(s.mods, modId)
    case None => (Failure("Mod not found"), s)
    case Some(mod) =>
      var newEnabled := !mod.enabled;
      var newPath := TogglePath(mod);
      var check := if ToggleRenames(mod) then RenameCheck(s.files, dirs, locked, mod.path, newPath) else Pass;
      if check.Fail? then
        (Failure("Failed to " + (if newEnabled then "enable" else "disable") + " mod: " + check.error), s)
      else
        var files := if ToggleRenames(mod) then Moved(s.files, mod.path, newPath) else s.files;
        var flagged := WithEnabled(s.mods, modId, newEnabled);
        var written := if staleSave then mod.(path := newPath) else mod.(path := newPath, enabled := newEnabled);
        var mods := if newPath != mod.path then Saved(flagged, written) else flagged;
        (Success(ToggleResult(newEnabled, ToggleMessage(newEnabled))), Store(mods, files))
  }

  /** After a corrected toggle the stored record carries the new flag and the new path,
      and the file sits at that path. */
  lemma ToggleStoresNewState(s: Store, dirs: set<string>, locked: set<string>, modId: string)
    requires var r := ToggleEffect(s, dirs, locked, modId, false); r.0.Success?
    ensures var r := ToggleEffect(s, dirs, locked, modId, false);
      var mod := Find(s.mods, modId).value;
      && Find(r.1.mods, modId) == Some(mod.(enabled := r.0.value.enabled, path := TogglePath(mod)))
      && (mod.path in s.files ==> TogglePath(mod) in r.1.files)
  {
  }

  /** A path that holds no `.disabled` does not end in it. */
  lemma NotEndsWithDisabled(p: string)
    requires !Contains(p, DisabledSuffix)
    ensures !EndsWith(p, DisabledSuffix)
  {
    if EndsWith(p, DisabledSuffix) {
      assert OccursAt(p, DisabledSuffix, |p| - |DisabledSuffix|);
    }
  }

  /** Toggling off an enabled mod whose path does not end in `.disabled`: the file moves
      to the disabled name, the flag is cleared, and the record is saved with the new path
      and, unless `staleSave`, the new flag. */
  lemma ToggleOff(s: Store, dirs: set<string>, locked: set<string>, modId: string, staleSave: bool)
    requires modId in s.mods && s.mods[modId].enabled == 1
    requires var p := s.mods[modId].path;
      p in s.files && !EndsWith(p, DisabledSuffix) && p !in locked && p + DisabledSuffix !in locked
      && p + DisabledSuffix !in dirs
    ensures var mod := Decode(modId, s.mods[modId]);
      var off := mod.path + DisabledSuffix;
      var written := if staleSave then mod.(path := off) else mod.(path := off, enabled := false);
      ToggleEffect(s, dirs, locked, modId, staleSave)
        == (Success(ToggleResult(false, ToggleMessage(false))),
            Store(Saved(WithEnabled(s.mods, modId, false), written), Moved(s.files, mod.path, off)))
  {
    var mod := Decode(modId, s.mods[modId]);
    assert Find(s.mods, modId) == Some(mod);
    assert TogglePath(mod) == mod.path + DisabledSuffix;
  }

  /** Toggling on a disabled record whose path ends in `.disabled`, corrected form. */
  lemma ToggleOn(s: Store, dirs: set<string>, locked: set<string>, modId: string)
    requires modId in s.mods && s.mods[modId].enabled == 0
    requires var q := s.mods[modId].path;
      var on := ReplaceFirst(q, DisabledSuffix, "");
      q in s.files && EndsWith(q, DisabledSuffix) && on != q && q !in locked && on !in locked && on !in dirs
    ensures var mod := Decode(modId, s.mods[modId]);
      var on := ReplaceFirst(mod.path, DisabledSuffix, "");
      ToggleEffect(s, dirs, locked, modId, false)
        == (Success(ToggleResult(true, ToggleMessage(true))),
            Store(Saved(WithEnabled(s.mods, modId, true), mod.(path := on, enabled := true)), Moved(s.files, mod.path, on)))
  {
    var mod := Decode(modId, s.mods[modId]);
    assert Find(s.mods, modId) == Some(mod);
  }

  /** Saving a record with the flag cleared and then the original record again restores
      the table, when the original row holds 1 or 0 in `enabled`. */
  lemma ResaveRestores(t: map<string, ModRow>, id: string, mid: ModFile, orig: ModFile)
    requires id in t && (t[id].enabled == 0 || t[id].enabled == 1)
    requires mid.id == id && orig == Decode(id, t[id])
    ensures Saved(WithEnabled(Saved(WithEnabled(t, id, false), mid), id, true), orig) == t
  {
    RowRoundTrip(id, t[id]);
    var r := Saved(WithEnabled(Saved(WithEnabled(t, id, false), mid), id, true), orig);
    assert r.Keys == t.Keys;
    assert r[id] == t[id];
  }

  /** Toggling an enabled mod twice restores the table and the files, provided the path
      holds no `.disabled`, the disabled name is free and neither name is locked. */
  lemma ToggleTwice(s: Store, dirs: set<string>, locked: set<string>, modId: string)
    requires modId in s.mods && s.mods[modId].enabled == 1
    requires var p := s.mods[modId].path;
      && p in s.files && p + DisabledSuffix !in s.files
      && !Contains(p, DisabledSuffix) && p !in locked && p + DisabledSuffix !in locked
      && p !in dirs && p + DisabledSuffix !in dirs
    ensures var once := ToggleEffect(s, dirs, locked, modId, false);
      var twice := ToggleEffect(once.1, dirs, locked, modId, false);
      && once.0 == Success(ToggleResult(false, "Mod disabled successfully"))
      && twice.0 == Success(ToggleResult(true, "Mod enabled successfully"))
      && twice.1 == s
  {
    var mod := Decode(modId, s.mods[modId]);
    var p := mod.path;
    var off := p + DisabledSuffix;
    NotEndsWithDisabled(p);
    ToggleOff(s, dirs, locked, modId, false);
    var mid := mod.(path := off, enabled := false);
    var s1 := Store(Saved(WithEnabled(s.mods, modId, false), mid), Moved(s.files, p, off));
    assert s1.mods[modId] == Encode(mid);
    assert EndsWith(off, DisabledSuffix) by { assert off[|off| - |DisabledSuffix|..] == DisabledSuffix; }
    ModManager.DisableEnablePath(p);
    ToggleOn(s1, dirs, locked, modId);
    assert Decode(modId, s1.mods[modId]) == mid;
    MovedBack(s.files, p, off);
    ResaveRestores(s.mods, modId, mid, mod);
  }

  /** As written, toggling off an enabled mod renames its file to the disabled name and
      reports the mod disabled, yet the stored record still says enabled; a second toggle
      then only clears the flag and leaves the file at the disabled name. So `a.package`,
      toggled twice, ends up as `a.package.disabled`. */
  lemma StaleFlagAfterToggle(s: Store, dirs: set<string>, locked: set<string>, modId: string)
    requires modId in s.mods && s.mods[modId].enabled == 1
    requires var p := s.mods[modId].path;
      p in s.files && !Contains(p, DisabledSuffix) && p !in locked && p + DisabledSuffix !in locked
      && p + DisabledSuffix !in dirs
    ensures var p := s.mods[modId].path;
      var once := ToggleEffect(s, dirs, locked, modId, true);
      var twice := ToggleEffect(once.1, dirs, locked, modId, true);
      && once.0 == Success(ToggleResult(false, "Mod disabled successfully"))
      && p !in once.1.files && p + DisabledSuffix in once.1.files
      && Find(once.1.mods, modId).value.enabled
      && twice.0 == Success(ToggleResult(false, "Mod disabled successfully"))
      && twice.1.files == once.1.files
  {
    var mod := Decode(modId, s.mods[modId]);
    var p := mod.path;
    var off := p + DisabledSuffix;
    NotEndsWithDisabled(p);
    ToggleOff(s, dirs, locked, modId, true);
    var mid := mod.(path := off);
    var s1 := Store(Saved(WithEnabled(s.mods, modId, false), mid), Moved(s.files, p, off));
    assert Find(s1.mods, modId) == Some(mid);
    assert EndsWith(off, DisabledSuffix) by { assert off[|off| - |DisabledSuffix|..] == DisabledSuffix; }
    assert TogglePath(mid) == off;
  }

  /** What deleteMod returns when it succeeds. */
  datatype DeleteResult = DeleteResult(success: bool, message: string)

  const DeletedMessage := "Mod deleted successfully"

  /** deleteMod on an open database: the file is unlinked when something exists at its
      path, then the row is deleted. */
  function DeleteEffect(s: Store, dirs: set<string>, locked: set<string>, modId: string): (r: (Result<DeleteResult>, Store))
    ensures Find(s.mods, modId).None? ==> r == (Failure("Mod not found"), s)
    ensures r.0.Failure? ==> r.1 == s
    ensures r.0.Success? ==>
      (&& r.0.value == DeleteResult(true, DeletedMessage) && Find(r.1.mods, modId).None?
       && Find(s.mods, modId).Some? && Find(s.mods, modId).value.path !in r.1.files)
    ensures r.0.Success? ==> forall other :: other != modId ==> Find(r.1.mods, other) == Find(s.mods, other)
    ensures Find(s.mods, modId).Some? && Find(s.mods, modId).value.path in dirs && Find(s.mods, modId).value.path !in s.files
      ==> r == (Failure("Failed to delete mod: "
                        + ("EISDIR: illegal operation on a directory, unlink '" + Find(s.mods, modId).value.path + "'")), s)
  {
    match Find(s.mods, modId)
    case None => (Failure("Mod not found"), s)
    case Some(mod) =>
      var exists_ := mod.path in s.files || mod.path in dirs;
      var check := if exists_ then UnlinkCheck(s.files, dirs, locked, mod.path) else Pass;
      if check.Fail? then (Failure("Failed to delete mod: " + check.error), s)
      else (Success(DeleteResult(true, DeletedMessage)), Store(WithoutRow(s.mods, modId), s.files - {mod.path}))
  }

  class Service {
    const db: Database
    const disk: Disk

    constructor(db: Database, disk: Disk)
      ensures this.db == db && this.disk == disk
    {
      this.db := db;
      this.disk := disk;
    }

    /** scanMods: the directory must exist; each candidate file whose record can be
        created is saved and returned, and a failing save skips that file only. */
    method ScanMods(modsPath: string, listing: Listing, mint: string -> string, now: int)
      returns (r: Result<seq<ModFile>>)
      modifies db
      ensures db.open == old(db.open)
      ensures !disk.Exists(modsPath) ==> r == Failure("Mods directory does not exist: " + modsPath) && db.mods == old(db.mods)
      ensures disk.Exists(modsPath) && !db.open ==> r == Success([]) && db.mods == old(db.mods)
      ensures disk.Exists(modsPath) && db.open ==>
        var created := Created(CandidateListing(modsPath, listing), disk.files, mint, now);
        r == Success(created) && db.mods == SavedAll(old(db.mods), created)
    {
      if !disk.Exists(modsPath) {
        return Failure("Mods directory does not exist: " + modsPath);
      }
      var files := ScanDirectory(modsPath, listing);
      var foundMods: seq<ModFile> := [];
      ghost var created: seq<ModFile> := [];
      for i := 0 to |files|
        invariant db.open == old(db.open)
        invariant created == Created(files[..i], disk.files, mint, now)
        invariant db.mods == if db.open then SavedAll(old(db.mods), created) else old(db.mods)
        invariant foundMods == if db.open then created else []
      {
        CreatedStep(files, i, disk.files, mint, now);
        var filePath := files[i];
        var mod := CreateModFromFile(filePath, ModManager.StatOf(disk.files, filePath), mint(filePath), now);
        if mod.Some? {
          var saved := db.SaveMod(mod.value);
          if saved.Pass? {
            foundMods := foundMods + [mod.value];
          }
          created := created + [mod.value];
        }
      }
      assert files[..|files|] == files;
      r := Success(foundMods);
    }

    method GetMods() returns (r: Result<seq<ModFile>>)
      ensures !db.open ==> r == Failure(NotInitialized)
      ensures db.open ==> r.Success? && ListsAll(db.mods, r.value)
    {
      r := db.GetMods();
    }

    method GetModById(id: string) returns (r: Result<Option<ModFile>>)
      ensures r == if db.open then Success(Find(db.mods, id)) else Failure(NotInitialized)
    {
      r := db.GetModById(id);
    }

    /** toggleMod as written: after a rename the record read before the toggle is saved
        with only its path changed, so it keeps its old `enabled` (see `ToggleEffect` and
        `StaleFlagAfterToggle`). The lookup precedes the guarded block, so a closed
        database's error comes through unwrapped. */
    method ToggleMod(modId: string) returns (r: Result<ToggleResult>)
      modifies db, disk
      ensures db.open == old(db.open)
      ensures disk.dirs == old(disk.dirs) && disk.locked == old(disk.locked) && disk.unreadable == old(disk.unreadable)
      ensures !db.open ==> r == Failure(NotInitialized) && db.mods == old(db.mods) && disk.files == old(disk.files)
      ensures db.open ==>
        (r, Store(db.mods, disk.files)) == ToggleEffect(Store(old(db.mods), old(disk.files)), disk.dirs, disk.locked, modId, true)
    {
      var found := db.GetModById(modId);
      if found.Failure? {
        return Failure(found.error);
      }
      if found.value.None? {
        return Failure("Mod not found");
      }
      var mod := found.value.value;
      var newEnabled := !mod.enabled;
      var newPath := mod.path;
      var verb := if newEnabled then "enable" else "disable";
      if newEnabled {
        if EndsWith(mod.path, DisabledSuffix) {
          newPath := ReplaceFirst(mod.path, DisabledSuffix, "");
          var renamed := disk.Rename(mod.path, newPath);
          if renamed.Fail? {
            return Failure("Failed to " + verb + " mod: " + renamed.error);
          }
        }
      } else {
        if !EndsWith(mod.path, DisabledSuffix) {
          newPath := mod.path + DisabledSuffix;
          var renamed := disk.Rename(mod.path, newPath);
          if renamed.Fail? {
            return Failure("Failed to " + verb + " mod: " + renamed.error);
          }
        }
      }
      // the lookup succeeded, so the database is open and both writes pass
      var _ := db.UpdateModEnabled(modId, newEnabled);
      if newPath != mod.path {
        var _ := db.SaveMod(mod.(path := newPath));
      }
      r := Success(ToggleResult(newEnabled, ToggleMessage(newEnabled)));
    }

    /** deleteMod: unlink the file when something exists at its path, then delete the row. */
    method DeleteMod(modId: string) returns (r: Result<DeleteResult>)
      modifies db, disk
      ensures db.open == old(db.open)
      ensures disk.dirs == old(disk.dirs) && disk.locked == old(disk.locked) && disk.unreadable == old(disk.unreadable)
      ensures !db.open ==> r == Failure(NotInitialized) && db.mods == old(db.mods) && disk.files == old(disk.files)
      ensures db.open ==>
        (r, Store(db.mods, disk.files)) == DeleteEffect(Store(old(db.mods), old(disk.files)), disk.dirs, disk.locked, modId)
    {
      var found := db.GetModById(modId);
      if found.Failure? {
        return Failure(found.error);
      }
      if found.value.None? {
        return Failure("Mod not found");
      }
      var mod := found.value.value;
      if disk.Exists(mod.path) {
        var unlinked := disk.Unlink(mod.path);
        if unlinked.Fail? {
          return Failure("Failed to delete mod: " + unlinked.error);
        }
      }
      // the lookup succeeded, so the database is open and the delete passes
      var _ := db.DeleteMod(modId);
      assert disk.files == old(disk.files) - {mod.path};
      r := Success(DeleteResult(true, DeletedMessage));
    }
  }
}
