/** ModManager (src/services/ModManager.ts): the recursive scan of the Mods folder into
    `ModInfo` records, enabling and disabling a mod by renaming its file, and the
    conflict report over the enabled mods. Record ids (`uuidv4`) come from `mint`: the
    record a scan creates for the file at path `p` gets `mint(p)`. */
module ModManager {
  import opened Wrappers
  import opened Text
  import opened Types
  import opened Paths
  import opened FileSystem
  import opened ModNaming

  const DisabledSuffix: string := ".disabled"

  /** What `fs.stat` yields for `path`: nothing when the file is not there. */
  function StatOf(files: map<string, FileData>, path: string): (r: Option<FileData>)
    ensures r.Some? <==> path in files
    ensures r.Some? ==> r.value == files[path]
  {
    if path in files then Some(files[path]) else None
  }

  /** ModManager.createModInfo: a record for the file at `filePath`, or nothing when its
      `stat` or the `readFile` that hashes it fails (`read` is the digest of the bytes
      read). A name ending in `.disabled` gives a disabled record whose file name has the
      first `.disabled` removed. */
  function CreateModInfo(filePath: string, stat: Option<FileData>, read: Option<string>, id: string): (r: Option<ModInfo>)
    ensures r.Some? <==> stat.Some? && read.Some?
    ensures r.Some? ==> r.value.id == id && r.value.filePath == filePath
    ensures r.Some? ==> r.value.fileSize == stat.value.size && r.value.fileHash == read.value
    ensures r.Some? ==> (r.value.enabled <==> !EndsWith(BaseName(filePath), DisabledSuffix))
    ensures r.Some? && r.value.enabled ==> r.value.filename == BaseName(filePath)
    ensures r.Some? ==> r.value.version != [] && r.value.author != []
    ensures r.Some? ==> r.value == ModRecord(filePath, stat.value, read.value, id)
  {
    if stat.None? || read.None? then None
    else Some(ModRecord(filePath, stat.value, read.value, id))
  }

  /** The file name a record is filed under: the base name without its first `.disabled`
      when it ends in one. */
  function ActualFileName(filename: string): string {
    if EndsWith(filename, DisabledSuffix) then ReplaceFirst(filename, DisabledSuffix, "") else filename
  }

  /** The record createModInfo builds once both the `stat` and the read have succeeded:
      its name, version, author and category are read off the actual file name. */
  function ModRecord(filePath: string, data: FileData, digest: string, id: string): (m: ModInfo)
    ensures m.id == id && m.filePath == filePath && m.fileSize == data.size && m.fileHash == digest
    ensures m.lastModified == data.mtime && m.installDate == data.birthtime
    ensures m.enabled <==> !EndsWith(BaseName(filePath), DisabledSuffix)
    ensures m.filename == ActualFileName(BaseName(filePath))
    ensures m.enabled ==> m.filename == BaseName(filePath)
    ensures !m.enabled ==> m.filename == ReplaceFirst(BaseName(filePath), DisabledSuffix, "")
    ensures m.name == ExtractModName(m.filename) && m.category == DetermineCategory(m.filename)
    ensures m.version == ExtractVersion(m.filename).GetOr("1.0.0") && m.version != []
    ensures m.author == ExtractAuthor(m.filename).GetOr("Unknown") && m.author != []
    ensures m.conflicts == [] && m.dependencies == [] && m.tags == [] && m.lastUsed == None
  {
    var filename := BaseName(filePath);
    var isDisabled := EndsWith(filename, DisabledSuffix);
    var actual := ActualFileName(filename);
    ModInfo(
      id := id,
      name := ExtractModName(actual),
      filename := actual,
      version := ExtractVersion(actual).GetOr("1.0.0"),
      author := ExtractAuthor(actual).GetOr("Unknown"),
      filePath := filePath,
      fileSize := data.size,
      fileHash := digest,
      lastModified := data.mtime,
      enabled := !isDisabled,
      category := DetermineCategory(actual),
      conflicts := [],
      dependencies := [],
      curseforgeId := None,
      downloadUrl := None,
      thumbnailUrl := None,
      description := None,
      tags := [],
      rating := None,
      installDate := data.birthtime,
      lastUsed := None)
  }

  /** The scanner's extension test on an entry name (ModManager.ts:69-72). */
  predicate IsScannedName(name: string) {
    var ext := Lower(ExtName(name));
    ext == ".package" || ext == ".ts4script"
  }

  // ---------------------------------------------------------------- scanDirectory

  /** The records one directory entry contributes. */
  function ScanEntry(dir: string, e: Entry, files: map<string, FileData>, unreadable: set<string>, mint: string -> string): seq<ModInfo>
    decreases e
  {
    match e
    case DirEntry(name, contents) => ScanListing(JoinPath(dir, name), contents, files, unreadable, mint)
    case FileEntry(name) => ScanFile(JoinPath(dir, name), name, files, unreadable, mint)
    case OtherEntry(_) => []
  }

  /** The record a file entry contributes: one when its name passes the extension test
      and its `stat` succeeds. */
  function ScanFile(path: string, name: string, files: map<string, FileData>, unreadable: set<string>, mint: string -> string): (r: seq<ModInfo>)
    ensures |r| <= 1
    ensures r != [] ==> IsScannedName(name) && CreateModInfo(path, StatOf(files, path), ReadDigest(files, unreadable, path), mint(path)) == Some(r[0])
  {
    if IsScannedName(name) then
      match CreateModInfo(path, StatOf(files, path), ReadDigest(files, unreadable, path), mint(path))
      case Some(info) => [info]
      case None => []
    else []
  }

  /** The records a run of directory entries contributes, in order. */
  function ScanEntries(dir: string, entries: seq<Entry>, files: map<string, FileData>, unreadable: set<string>, mint: string -> string): seq<ModInfo>
    decreases entries
  {
    if entries == [] then []
    else ScanEntries(dir, entries[..|entries| - 1], files, unreadable, mint) + ScanEntry(dir, entries[|entries| - 1], files, unreadable, mint)
  }

  /** The records scanning a directory with this `readdir` outcome yields. */
  function ScanListing(dir: string, listing: Listing, files: map<string, FileData>, unreadable: set<string>, mint: string -> string): seq<ModInfo>
    decreases listing
  {
    match listing
    case Unreadable => []
    case Readable(entries) => ScanEntries(dir, entries, files, unreadable, mint)
  }

  /** Entry names as a file system reports them: non-empty and without a separator. */
  predicate NamesWellFormed(listing: Listing) {
    match listing
    case Unreadable => true
    case Readable(entries) => EntriesWellFormed(entries)
  }

  predicate EntriesWellFormed(entries: seq<Entry>)
    decreases entries
  {
    entries != [] ==>
      var e := entries[|entries| - 1];
      && e.name != [] && Separator !in e.name
      && (e.DirEntry? ==> NamesWellFormed(e.contents))
      && EntriesWellFormed(entries[..|entries| - 1])
  }

  /** A name ending in `.disabled` has extension `.disabled` (or none, for the bare name). */
  lemma DisabledExtension(name: string)
    requires EndsWith(name, DisabledSuffix)
    ensures ExtName(name) == DisabledSuffix || ExtName(name) == []
  {
    var i := |name| - |DisabledSuffix|;
    assert name[i..] == DisabledSuffix;
    assert name[i] == '.' && name[i] in name;
    assert '.' !in name[i + 1..] by {
      assert name[i + 1..] == DisabledSuffix[1..] == "disabled";
    }
    var d := LastDot(name);
    assert d == Some(i);
  }

  /** Every record the ModManager scan creates is enabled: the extension test admits only
      `.package` and `.ts4script` names, so a `.disabled` file is never read. Each record
      stands for a scanned file that is on disk. */
  lemma {:induction false} ScannedAreEnabled(dir: string, entries: seq<Entry>, files: map<string, FileData>, unreadable: set<string>, mint: string -> string)
    requires EntriesWellFormed(entries)
    ensures forall m :: m in ScanEntries(dir, entries, files, unreadable, mint) ==>
      m.enabled && m.filePath in files && IsScannedName(m.filename)
    decreases entries
  {
    if entries != [] {
      var e := entries[|entries| - 1];
      ScannedAreEnabled(dir, entries[..|entries| - 1], files, unreadable, mint);
      ScannedEntryIsEnabled(dir, e, files, unreadable, mint);
    }
  }

  lemma {:induction false} ScannedEntryIsEnabled(dir: string, e: Entry, files: map<string, FileData>, unreadable: set<string>, mint: string -> string)
    requires e.name != [] && Separator !in e.name
    requires e.DirEntry? ==> NamesWellFormed(e.contents)
    ensures forall m :: m in ScanEntry(dir, e, files, unreadable, mint) ==>
      m.enabled && m.filePath in files && IsScannedName(m.filename)
    decreases e
  {
    match e {
      case DirEntry(name, Readable(sub)) =>
        ScannedAreEnabled(JoinPath(dir, name), sub, files, unreadable, mint);
      case DirEntry(_, Unreadable) =>
      case FileEntry(name) =>
        BaseNameOfEntry(dir, name);
        ScannedFileIsEnabled(JoinPath(dir, name), name, files, unreadable, mint);
      case OtherEntry(_) =>
    }
  }

  lemma ScannedFileIsEnabled(path: string, name: string, files: map<string, FileData>, unreadable: set<string>, mint: string -> string)
    requires BaseName(path) == name
    ensures forall m :: m in ScanFile(path, name, files, unreadable, mint) ==>
      m.enabled && m.filePath in files && IsScannedName(m.filename)
  {
    var r := ScanFile(path, name, files, unreadable, mint);
    if r != [] {
      ScannedNameNotDisabled(name);
      var info := CreateModInfo(path, StatOf(files, path), ReadDigest(files, unreadable, path), mint(path));
      assert info == Some(r[0]);
      assert r == [r[0]];
    }
  }

  /** A name that passes the extension test does not end in `.disabled`. */
  lemma ScannedNameNotDisabled(name: string)
    requires IsScannedName(name)
    ensures !EndsWith(name, DisabledSuffix)
  {
    if EndsWith(name, DisabledSuffix) {
      DisabledExtension(name);
    }
  }

  /** The records `mods` gains from scanning `dirPath`, whose `readdir` gives `listing`. */
  method ScanDirectory(disk: Disk, dirPath: string, listing: Listing, mint: string -> string, mods: seq<ModInfo>)
    returns (result: seq<ModInfo>)
    ensures result == mods + ScanListing(dirPath, listing, disk.files, disk.unreadable, mint)
    decreases listing
  {
    match listing {
      case Unreadable =>
        // readdir threw: the scan logs a warning and contributes nothing
        return mods;
      case Readable(entries) =>
        result := mods;
        for i := 0 to |entries|
          invariant result == mods + ScanEntries(dirPath, entries[..i], disk.files, disk.unreadable, mint)
        {
          ScanEntriesStep(dirPath, entries, i, disk.files, disk.unreadable, mint);
          result := ScanDirectoryEntry(disk, dirPath, entries[i], mint, result);
        }
        assert entries[..|entries|] == entries;
    }
  }

  lemma ScanEntriesStep(dir: string, entries: seq<Entry>, i: nat, files: map<string, FileData>, unreadable: set<string>, mint: string -> string)
    requires i < |entries|
    ensures ScanEntries(dir, entries[..i + 1], files, unreadable, mint)
      == ScanEntries(dir, entries[..i], files, unreadable, mint) + ScanEntry(dir, entries[i], files, unreadable, mint)
  {
    assert entries[..i + 1][..i] == entries[..i];
  }

  /** One turn of the scan loop: recurse into a directory, or push the record of a file
      that passes the extension test and can be read. */
  method ScanDirectoryEntry(disk: Disk, dirPath: string, entry: Entry, mint: string -> string, mods: seq<ModInfo>)
    returns (result: seq<ModInfo>)
    ensures result == mods + ScanEntry(dirPath, entry, disk.files, disk.unreadable, mint)
    decreases entry
  {
    var fullPath := JoinPath(dirPath, entry.name);
    result := mods;
    match entry {
      case DirEntry(_, contents) =>
        result := ScanDirectory(disk, fullPath, contents, mint, mods);
      case FileEntry(name) =>
        if IsScannedName(name) {
          var modInfo := CreateModInfo(fullPath, StatOf(disk.files, fullPath), ReadDigest(disk.files, disk.unreadable, fullPath), mint(fullPath));
          if modInfo.Some? {
            result := mods + [modInfo.value];
          }
        }
      case OtherEntry(_) =>
    }
  }

  // ---------------------------------------------------------------- lookup

  /** `mods.find(mod => mod.id === modId)`. */
  function FindById(mods: seq<ModInfo>, modId: string): (r: Option<ModInfo>)
    ensures r.Some? ==> r.value in mods && r.value.id == modId
    ensures r.Some? ==> exists k :: 0 <= k < |mods| && mods[k] == r.value && forall j :: 0 <= j < k ==> mods[j].id != modId
    ensures r.None? ==> forall m :: m in mods ==> m.id != modId
  {
    if mods == [] then None
    else if mods[0].id == modId then Some(mods[0])
    else FindById(mods[1..], modId)
  }

  // ---------------------------------------------------------------- conflicts

  /** `mods.filter(mod => mod.enabled)`. */
  function EnabledMods(mods: seq<ModInfo>): (r: seq<ModInfo>)
    ensures forall m :: m in r <==> m in mods && m.enabled
  {
    if mods == [] then []
    else (if mods[0].enabled then [mods[0]] else []) + EnabledMods(mods[1..])
  }

  /** The grouping key: the lower-cased file name. */
  function FileKey(m: ModInfo): string {
    Lower(m.filename)
  }

  /** The distinct keys of `mods` in the order they are first met. */
  function FirstSeenKeys(mods: seq<ModInfo>): (r: seq<string>)
    ensures forall k :: k in r <==> exists m :: m in mods && FileKey(m) == k
    ensures forall i, j :: 0 <= i < j < |r| ==> r[i] != r[j]
  {
    if mods == [] then []
    else
      var before := FirstSeenKeys(mods[..|mods| - 1]);
      var last := mods[|mods| - 1];
      assert forall m :: m in mods <==> m in mods[..|mods| - 1] || m == last;
      if FileKey(last) in before then before else before + [FileKey(last)]
  }

  /** The mods with key `k`, in their original order. */
  function Group(mods: seq<ModInfo>, k: string): (r: seq<ModInfo>)
    ensures forall m :: m in r <==> m in mods && FileKey(m) == k
    ensures r == [] <==> forall m :: m in mods ==> FileKey(m) != k
  {
    if mods == [] then []
    else
      var last := mods[|mods| - 1];
      assert forall m :: m in mods <==> m in mods[..|mods| - 1] || m == last;
      Group(mods[..|mods| - 1], k) + (if FileKey(last) == k then [last] else [])
  }

  function Ids(mods: seq<ModInfo>): (r: seq<string>)
    ensures |r| == |mods| && forall i :: 0 <= i < |mods| ==> r[i] == mods[i].id
  {
    seq(|mods|, i requires 0 <= i < |mods| => mods[i].id)
  }

  function DuplicateDescription(k: string): string {
    "Multiple mods with same file name: " + k
  }

  function DuplicateConflict(k: string, group: seq<ModInfo>): ModConflict {
    ModConflict(DuplicateFiles, Ids(group), DuplicateDescription(k), Medium, false)
  }

  /** One DUPLICATE_FILES conflict per key, in key order, for the keys shared by two or more mods. */
  function DuplicateConflicts(enabled: seq<ModInfo>, keys: seq<string>): (r: seq<ModConflict>)
    ensures forall c :: c in r ==> c.kind == DuplicateFiles
  {
    if keys == [] then []
    else
      var k := keys[|keys| - 1];
      var group := Group(enabled, k);
      DuplicateConflicts(enabled, keys[..|keys| - 1]) + (if |group| > 1 then [DuplicateConflict(k, group)] else [])
  }

  /** `enabledMods.filter(mod => mod.filename.endsWith('.ts4script'))`: case-sensitive. */
  function ScriptMods(enabled: seq<ModInfo>): (r: seq<ModInfo>)
    ensures forall m :: m in r <==> m in enabled && EndsWith(m.filename, ".ts4script")
  {
    if enabled == [] then []
    else (if EndsWith(enabled[0].filename, ".ts4script") then [enabled[0]] else []) + ScriptMods(enabled[1..])
  }

  const ScriptModThreshold: nat := 10

  function ScriptConflict(scripts: seq<ModInfo>): ModConflict {
    ModConflict(ScriptConflicts, Ids(scripts),
      "Large number of script mods may cause performance issues (" + NatToString(|scripts|) + " detected)",
      Low, false)
  }

  /** The conflicts checkConflicts reports for the scanned `mods`. */
  function ConflictsOf(mods: seq<ModInfo>): seq<ModConflict> {
    var enabled := EnabledMods(mods);
    var scripts := ScriptMods(enabled);
    DuplicateConflicts(enabled, FirstSeenKeys(enabled))
      + (if |scripts| > ScriptModThreshold then [ScriptConflict(scripts)] else [])
  }

  /** The suggestion each conflict type adds; the other types add none. */
  function SuggestionFor(kind: ConflictType): Option<string> {
    match kind
    case DuplicateFiles => Some("Consider keeping only one version of duplicate mods")
    case ScriptConflicts => Some("Try disabling some script mods to improve performance")
    case _ => None
  }

  /** ModManager.generateSuggestions: one suggestion per conflict of a type that has one,
      in conflict order. */
  function GenerateSuggestions(conflicts: seq<ModConflict>): (r: seq<string>)
    ensures |r| <= |conflicts|
  {
    if conflicts == [] then []
    else
      var rest := GenerateSuggestions(conflicts[1..]);
      match SuggestionFor(conflicts[0].kind)
      case Some(s) => [s] + rest
      case None => rest
  }

  /** When every conflict is of a type that has a suggestion, the suggestions line up one
      to one with the conflicts. */
  lemma {:induction false} SuggestionsLineUp(conflicts: seq<ModConflict>)
    requires forall c :: c in conflicts ==> SuggestionFor(c.kind).Some?
    ensures var r := GenerateSuggestions(conflicts);
      |r| == |conflicts| && forall i :: 0 <= i < |r| ==> Some(r[i]) == SuggestionFor(conflicts[i].kind)
  {
    if conflicts != [] {
      assert conflicts[0] in conflicts;
      assert forall c :: c in conflicts[1..] ==> c in conflicts;
      SuggestionsLineUp(conflicts[1..]);
    }
  }

  function ReportOf(mods: seq<ModInfo>): ConflictReport {
    var conflicts := ConflictsOf(mods);
    ConflictReport(|conflicts| > 0, conflicts, GenerateSuggestions(conflicts))
  }

  lemma FirstSeenKeysStep(mods: seq<ModInfo>, i: nat)
    requires i < |mods|
    ensures var before := FirstSeenKeys(mods[..i]);
      FirstSeenKeys(mods[..i + 1]) == if FileKey(mods[i]) in before then before else before + [FileKey(mods[i])]
  {
    assert mods[..i + 1][..i] == mods[..i];
  }

  lemma GroupStep(mods: seq<ModInfo>, i: nat, k: string)
    requires i < |mods|
    ensures Group(mods[..i + 1], k) == Group(mods[..i], k) + (if FileKey(mods[i]) == k then [mods[i]] else [])
  {
    assert mods[..i + 1][..i] == mods[..i];
  }

  lemma DuplicateConflictsStep(enabled: seq<ModInfo>, keys: seq<string>, j: nat)
    requires j < |keys|
    ensures var group := Group(enabled, keys[j]);
      DuplicateConflicts(enabled, keys[..j + 1])
        == DuplicateConflicts(enabled, keys[..j]) + (if |group| > 1 then [DuplicateConflict(keys[j], group)] else [])
  {
    assert keys[..j + 1][..j] == keys[..j];
  }

  /** The first loop of checkConflicts: a map from lower-cased file name to the mods
      carrying it, plus the order in which its keys were first inserted. */
  method GroupByFileName(enabledMods: seq<ModInfo>) returns (fileNames: map<string, seq<ModInfo>>, insertionOrder: seq<string>)
    ensures insertionOrder == FirstSeenKeys(enabledMods)
    ensures forall k :: k in fileNames <==> k in insertionOrder
    ensures forall k :: k in fileNames ==> fileNames[k] == Group(enabledMods, k)
  {
    fileNames := map[];
    insertionOrder := [];
    for i := 0 to |enabledMods|
      invariant insertionOrder == FirstSeenKeys(enabledMods[..i])
      invariant forall k :: k in fileNames <==> k in insertionOrder
      invariant forall k :: k in fileNames ==> fileNames[k] == Group(enabledMods[..i], k)
    {
      var mod := enabledMods[i];
      var fileName := Lower(mod.filename);
      assert fileName == FileKey(mod);
      FirstSeenKeysStep(enabledMods, i);
      var current: seq<ModInfo> := [];
      if fileName in fileNames {
        current := fileNames[fileName];
      } else {
        insertionOrder := insertionOrder + [fileName];
      }
      assert current == Group(enabledMods[..i], fileName);
      ghost var before := fileNames;
      fileNames := fileNames[fileName := current + [mod]];
      forall k | k in fileNames ensures fileNames[k] == Group(enabledMods[..i + 1], k) {
        GroupStep(enabledMods, i, k);
        if k != fileName {
          assert fileNames[k] == before[k];
        }
      }
    }
    assert enabledMods[..|enabledMods|] == enabledMods;
  }

  /** The second loop of checkConflicts: one DUPLICATE_FILES conflict per group of two or more. */
  method CollectDuplicates(enabledMods: seq<ModInfo>, fileNames: map<string, seq<ModInfo>>, insertionOrder: seq<string>)
    returns (conflicts: seq<ModConflict>)
    requires forall k :: k in insertionOrder ==> k in fileNames && fileNames[k] == Group(enabledMods, k)
    ensures conflicts == DuplicateConflicts(enabledMods, insertionOrder)
  {
    conflicts := [];
    for j := 0 to |insertionOrder|
      invariant conflicts == DuplicateConflicts(enabledMods, insertionOrder[..j])
    {
      DuplicateConflictsStep(enabledMods, insertionOrder, j);
      var fileName := insertionOrder[j];
      var modList := fileNames[fileName];
      if |modList| > 1 {
        conflicts := conflicts + [DuplicateConflict(fileName, modList)];
      }
    }
    assert insertionOrder[..|insertionOrder|] == insertionOrder;
  }

  /** The two loops of checkConflicts that find duplicate file names. */
  method DuplicatesAmong(enabledMods: seq<ModInfo>) returns (conflicts: seq<ModConflict>)
    ensures conflicts == DuplicateConflicts(enabledMods, FirstSeenKeys(enabledMods))
  {
    var fileNames, insertionOrder := GroupByFileName(enabledMods);
    conflicts := CollectDuplicates(enabledMods, fileNames, insertionOrder);
  }

  /** The body of checkConflicts after the scan. */
  method ConflictsAmong(mods: seq<ModInfo>) returns (report: ConflictReport)
    ensures report == ReportOf(mods)
  {
    var enabledMods := EnabledMods(mods);
    var conflicts := DuplicatesAmong(enabledMods);
    var scriptMods := ScriptMods(enabledMods);
    if |scriptMods| > ScriptModThreshold {
      conflicts := conflicts + [ScriptConflict(scriptMods)];
    } else {
      assert conflicts + [] == conflicts;
    }
    assert conflicts == ConflictsOf(mods);
    report := ConflictReport(|conflicts| > 0, conflicts, GenerateSuggestions(conflicts));
  }

  /** `c` is the duplicate conflict of key `k`: the group of `k` has two or more mods. */
  predicate DuplicateOf(enabled: seq<ModInfo>, k: string, c: ModConflict) {
    |Group(enabled, k)| > 1 && c == DuplicateConflict(k, Group(enabled, k))
  }

  /** The duplicate conflicts over `keys` are exactly the groups of two or more, one for
      each such key. */
  lemma {:induction false} DuplicateConflictsExact(enabled: seq<ModInfo>, keys: seq<string>)
    ensures forall c :: c in DuplicateConflicts(enabled, keys) <==> exists k :: k in keys && DuplicateOf(enabled, k, c)
  {
    if keys != [] {
      var front := keys[..|keys| - 1];
      var last := keys[|keys| - 1];
      DuplicateConflictsExact(enabled, front);
      var before := DuplicateConflicts(enabled, front);
      var group := Group(enabled, last);
      var extra := if |group| > 1 then [DuplicateConflict(last, group)] else [];
      var r := DuplicateConflicts(enabled, keys);
      assert r == before + extra;
      assert forall x :: x in keys <==> x in front || x == last;
      forall c ensures c in r <==> exists k :: k in keys && DuplicateOf(enabled, k, c) {
        if c in r {
          if c !in before {
            assert DuplicateOf(enabled, last, c);
          }
        }
        if exists k :: k in keys && DuplicateOf(enabled, k, c) {
          var k :| k in keys && DuplicateOf(enabled, k, c);
          if k == last {
            assert c in extra;
          } else {
            assert k in front;
          }
        }
      }
    }
  }

  /** No two conflicts of `r` share a description. */
  predicate DistinctDescriptions(r: seq<ModConflict>) {
    forall i, j :: 0 <= i < j < |r| ==> r[i].description != r[j].description
  }

  lemma DistinctSnoc(before: seq<ModConflict>, extra: seq<ModConflict>, d: string)
    requires DistinctDescriptions(before) && |extra| <= 1
    requires forall i :: 0 <= i < |before| ==> before[i].description != d
    requires forall c :: c in extra ==> c.description == d
    ensures DistinctDescriptions(before + extra)
  {
  }

  /** Distinct keys give conflicts with distinct descriptions: one conflict per key. */
  lemma {:induction false} DuplicateConflictsOnePerKey(enabled: seq<ModInfo>, keys: seq<string>)
    requires forall i, j :: 0 <= i < j < |keys| ==> keys[i] != keys[j]
    ensures DistinctDescriptions(DuplicateConflicts(enabled, keys))
  {
    if keys != [] {
      var front := keys[..|keys| - 1];
      var last := keys[|keys| - 1];
      DuplicateConflictsOnePerKey(enabled, front);
      DuplicateConflictsExact(enabled, front);
      var before := DuplicateConflicts(enabled, front);
      var group := Group(enabled, last);
      var extra := if |group| > 1 then [DuplicateConflict(last, group)] else [];
      forall i | 0 <= i < |before| ensures before[i].description != DuplicateDescription(last) {
        var c := before[i];
        assert c in before;
        var k :| k in front && DuplicateOf(enabled, k, c);
        DuplicateDescriptionInjective(k, last);
      }
      DistinctSnoc(before, extra, DuplicateDescription(last));
      assert DuplicateConflicts(enabled, keys) == before + extra;
    }
  }

  lemma DuplicateDescriptionInjective(k: string, k': string)
    requires k != k'
    ensures DuplicateDescription(k) != DuplicateDescription(k')
  {
    var n := |"Multiple mods with same file name: "|;
    assert DuplicateDescription(k)[n..] == k;
    assert DuplicateDescription(k')[n..] == k';
  }

  /** Every key whose group has two or more mods is among the first-seen keys. */
  lemma DuplicateKeysSeen(enabled: seq<ModInfo>, k: string)
    requires |Group(enabled, k)| > 1
    ensures k in FirstSeenKeys(enabled)
  {
    assert Group(enabled, k)[0] in Group(enabled, k);
  }

  /** `hasConflicts` is "some conflict was found", and each conflict has exactly its own
      suggestion at the same position. */
  lemma ReportFlags(mods: seq<ModInfo>)
    ensures var r := ReportOf(mods);
      (r.hasConflicts <==> r.conflicts != [])
      && |r.suggestions| == |r.conflicts|
      && forall i :: 0 <= i < |r.conflicts| ==> Some(r.suggestions[i]) == SuggestionFor(r.conflicts[i].kind)
  {
    var enabled := EnabledMods(mods);
    var scripts := ScriptMods(enabled);
    KindsOfConcat(DuplicateConflicts(enabled, FirstSeenKeys(enabled)),
      if |scripts| > ScriptModThreshold then [ScriptConflict(scripts)] else []);
    SuggestionsLineUp(ConflictsOf(mods));
  }

  lemma KindsOfConcat(dups: seq<ModConflict>, tail: seq<ModConflict>)
    requires forall c :: c in dups ==> c.kind == DuplicateFiles
    requires forall c :: c in tail ==> c.kind == ScriptConflicts
    ensures forall c :: c in dups + tail ==> SuggestionFor(c.kind).Some?
  {
  }

  /** The DUPLICATE_FILES conflicts of a report are exactly the groups of two or more
      enabled mods sharing a lower-cased file name; `DuplicateConflictsOnePerKey` shows
      there is one per such name. */
  /** The DUPLICATE_FILES conflicts of `conflicts` are exactly the duplicate conflicts of
      the groups of `enabled`. */
  ghost predicate DuplicatesExactly(conflicts: seq<ModConflict>, enabled: seq<ModInfo>) {
    (forall c :: c in conflicts && c.kind == DuplicateFiles ==> exists k :: DuplicateOf(enabled, k, c))
    && forall k, c :: DuplicateOf(enabled, k, c) ==> c in conflicts
  }

  lemma DuplicateFilesExact(mods: seq<ModInfo>)
    ensures DuplicatesExactly(ConflictsOf(mods), EnabledMods(mods))
  {
    var enabled := EnabledMods(mods);
    var scripts := ScriptMods(enabled);
    var tail := if |scripts| > ScriptModThreshold then [ScriptConflict(scripts)] else [];
    DuplicatesWithTail(enabled, tail);
  }

  /** `DuplicateFilesExact` for any list of other conflicts appended after the duplicates. */
  lemma DuplicatesWithTail(enabled: seq<ModInfo>, tail: seq<ModConflict>)
    requires forall c :: c in tail ==> c.kind == ScriptConflicts
    ensures DuplicatesExactly(DuplicateConflicts(enabled, FirstSeenKeys(enabled)) + tail, enabled)
  {
    var keys := FirstSeenKeys(enabled);
    var dups := DuplicateConflicts(enabled, keys);
    DuplicateConflictsExact(enabled, keys);
    forall k, c | DuplicateOf(enabled, k, c) ensures c in dups + tail {
      DuplicateKeysSeen(enabled, k);
      assert c in dups;
    }
  }

  /** What a duplicate conflict says: every enabled mod whose lower-cased file name is the
      key, with severity medium, not auto-resolvable. */
  lemma DuplicateConflictContents(mods: seq<ModInfo>, k: string, c: ModConflict)
    requires DuplicateOf(EnabledMods(mods), k, c)
    ensures c.kind == DuplicateFiles && c.severity == Medium && !c.autoResolvable
    ensures |c.modIds| >= 2
    ensures forall m :: m in mods && m.enabled && Lower(m.filename) == k ==> m.id in c.modIds
    ensures forall id :: id in c.modIds ==> exists m :: m in mods && m.enabled && Lower(m.filename) == k && m.id == id
  {
    var g := Group(EnabledMods(mods), k);
    IdsOf(g);
  }

  /** Ids lists the id of every mod of the group and nothing else. */
  lemma IdsOf(g: seq<ModInfo>)
    ensures forall m :: m in g ==> m.id in Ids(g)
    ensures forall id :: id in Ids(g) ==> exists m :: m in g && m.id == id
  {
    var ids := Ids(g);
    forall m | m in g ensures m.id in ids {
      var i :| 0 <= i < |g| && g[i] == m;
      assert ids[i] == m.id;
    }
    forall id | id in ids ensures exists m :: m in g && m.id == id {
      var i :| 0 <= i < |ids| && ids[i] == id;
      assert g[i] in g;
    }
  }

  /** Exactly one SCRIPT_CONFLICTS conflict, low and last, when more than ten enabled mods
      have a name ending in `.ts4script` (compared case-sensitively); none otherwise. */
  lemma ScriptConflictExact(mods: seq<ModInfo>)
    ensures var r := ConflictsOf(mods); var scripts := ScriptMods(EnabledMods(mods));
      ((exists c :: c in r && c.kind == ScriptConflicts) <==> |scripts| > ScriptModThreshold)
      && (forall i :: 0 <= i < |r| && r[i].kind == ScriptConflicts ==> i == |r| - 1)
      && (|scripts| > ScriptModThreshold ==> r[|r| - 1] == ScriptConflict(scripts) && r[|r| - 1].severity == Low)
    ensures forall m :: m in ScriptMods(EnabledMods(mods)) <==> m in mods && m.enabled && EndsWith(m.filename, ".ts4script")
  {
    var enabled := EnabledMods(mods);
    var scripts := ScriptMods(enabled);
    var dups := DuplicateConflicts(enabled, FirstSeenKeys(enabled));
    var tail := if |scripts| > ScriptModThreshold then [ScriptConflict(scripts)] else [];
    ScriptLast(dups, tail);
  }

  lemma ScriptLast(dups: seq<ModConflict>, tail: seq<ModConflict>)
    requires forall c :: c in dups ==> c.kind == DuplicateFiles
    requires forall c :: c in tail ==> c.kind == ScriptConflicts
    ensures var r := dups + tail;
      ((exists c :: c in r && c.kind == ScriptConflicts) <==> tail != [])
      && forall i :: 0 <= i < |r| && r[i].kind == ScriptConflicts ==> |dups| <= i
  {
    var r := dups + tail;
    if tail != [] {
      assert r[|dups|] == tail[0];
    }
  }

  /** Every id named by a conflict of `conflicts` belongs to an enabled mod of `mods`. */
  ghost predicate NamesOnlyEnabled(conflicts: seq<ModConflict>, mods: seq<ModInfo>) {
    forall c, id :: c in conflicts && id in c.modIds ==> exists m :: m in mods && m.enabled && m.id == id
  }

  /** Only enabled mods are ever named in a conflict. */
  lemma ConflictIdsAreEnabled(mods: seq<ModInfo>)
    ensures NamesOnlyEnabled(ConflictsOf(mods), mods)
  {
    var enabled := EnabledMods(mods);
    var scripts := ScriptMods(enabled);
    IdsOf(scripts);
    var tail := if |scripts| > ScriptModThreshold then [ScriptConflict(scripts)] else [];
    DuplicateIdsEnabled(mods, enabled, tail);
  }

  lemma DuplicateIdsEnabled(mods: seq<ModInfo>, enabled: seq<ModInfo>, tail: seq<ModConflict>)
    requires forall m :: m in enabled <==> m in mods && m.enabled
    requires NamesOnlyEnabled(tail, mods)
    ensures NamesOnlyEnabled(DuplicateConflicts(enabled, FirstSeenKeys(enabled)) + tail, mods)
  {
    var keys := FirstSeenKeys(enabled);
    var dups := DuplicateConflicts(enabled, keys);
    DuplicateConflictsExact(enabled, keys);
    forall c, id | c in dups && id in c.modIds ensures exists m :: m in mods && m.enabled && m.id == id {
      var k :| k in keys && DuplicateOf(enabled, k, c);
      IdsOf(Group(enabled, k));
    }
  }

  // ---------------------------------------------------------------- the service object

  /** Every record a scan of a listing creates is enabled and stands for a file on disk. */
  lemma ScannedListingEnabled(dir: string, listing: Listing, files: map<string, FileData>, unreadable: set<string>, mint: string -> string)
    requires NamesWellFormed(listing)
    ensures forall m :: m in ScanListing(dir, listing, files, unreadable, mint) ==>
      m.enabled && m.filePath in files && IsScannedName(m.filename)
  {
    match listing {
      case Readable(entries) => ScannedAreEnabled(dir, entries, files, unreadable, mint);
      case Unreadable =>
    }
  }

  /** `.disabled` overlaps itself nowhere: its only dot is its first character. */
  lemma DisabledSuffixUnbordered()
    ensures Unbordered(DisabledSuffix)
  {
    forall d | 0 < d < |DisabledSuffix| ensures DisabledSuffix[d..] != DisabledSuffix[..|DisabledSuffix| - d] {
      assert DisabledSuffix[d..][0] == DisabledSuffix[d] != '.';
      assert DisabledSuffix[..|DisabledSuffix| - d][0] == '.';
    }
  }

  /** Appending `.disabled` and then removing the first `.disabled` gives the original path
      back, provided the path has no `.disabled` of its own. */
  lemma DisableEnablePath(path: string)
    requires !Contains(path, DisabledSuffix)
    ensures ReplaceFirst(path + DisabledSuffix, DisabledSuffix, "") == path
  {
    DisabledSuffixUnbordered();
    ReplaceFirstOfSuffix(path, DisabledSuffix);
  }

  /** The rename-then-update step of enableMod on a found record. Only a disabled record
      is renamed, to its path with the first `.disabled` removed; the record changes only
      when the rename succeeds. */
  method ApplyEnable(disk: Disk, mod: ModInfo) returns (updated: ModInfo, r: Outcome)
    modifies disk
    ensures disk.dirs == old(disk.dirs) && disk.locked == old(disk.locked) && disk.unreadable == old(disk.unreadable)
    ensures mod.enabled ==> r == Pass && updated == mod && disk.files == old(disk.files)
    ensures !mod.enabled ==>
      var to := ReplaceFirst(mod.filePath, DisabledSuffix, "");
      var check := RenameCheck(old(disk.files), disk.dirs, disk.locked, mod.filePath, to);
      && (check.Pass? ==>
            r == Pass && updated == mod.(enabled := true, filePath := to)
            && disk.files == Moved(old(disk.files), mod.filePath, to))
      && (check.Fail? ==>
            r == Fail("Failed to enable mod: Error: " + check.error) && updated == mod
            && disk.files == old(disk.files))
  {
    if mod.enabled {
      return mod, Pass;
    }
    var disabledPath := mod.filePath;
    var enabledPath := ReplaceFirst(disabledPath, DisabledSuffix, "");
    var renamed := disk.Rename(disabledPath, enabledPath);
    if renamed.Fail? {
      return mod, Fail("Failed to enable mod: Error: " + renamed.error);
    }
    updated := mod.(enabled := true, filePath := enabledPath);
    r := Pass;
  }

  /** The rename-then-update step of disableMod on a found record: an enabled record's
      file gets `.disabled` appended. */
  method ApplyDisable(disk: Disk, mod: ModInfo) returns (updated: ModInfo, r: Outcome)
    modifies disk
    ensures disk.dirs == old(disk.dirs) && disk.locked == old(disk.locked) && disk.unreadable == old(disk.unreadable)
    ensures !mod.enabled ==> r == Pass && updated == mod && disk.files == old(disk.files)
    ensures mod.enabled ==>
      var to := mod.filePath + DisabledSuffix;
      var check := RenameCheck(old(disk.files), disk.dirs, disk.locked, mod.filePath, to);
      && (check.Pass? ==>
            r == Pass && updated == mod.(enabled := false, filePath := to)
            && disk.files == Moved(old(disk.files), mod.filePath, to))
      && (check.Fail? ==>
            r == Fail("Failed to disable mod: Error: " + check.error) && updated == mod
            && disk.files == old(disk.files))
  {
    if !mod.enabled {
      return mod, Pass;
    }
    var enabledPath := mod.filePath;
    var disabledPath := enabledPath + DisabledSuffix;
    var renamed := disk.Rename(enabledPath, disabledPath);
    if renamed.Fail? {
      return mod, Fail("Failed to disable mod: Error: " + renamed.error);
    }
    updated := mod.(enabled := false, filePath := disabledPath);
    r := Pass;
  }

  /** Disabling an enabled record and then enabling it again restores both the record and
      the file table, when the path has no `.disabled` and the disabled name is free. */
  lemma DisableEnableRoundTrip(files: map<string, FileData>, mod: ModInfo)
    requires mod.enabled && mod.filePath in files
    requires !Contains(mod.filePath, DisabledSuffix) && mod.filePath + DisabledSuffix !in files
    ensures var off := mod.filePath + DisabledSuffix;
      var back := ReplaceFirst(off, DisabledSuffix, "");
      && mod.(enabled := false, filePath := off).(enabled := true, filePath := back) == mod
      && Moved(Moved(files, mod.filePath, off), off, back) == files
  {
    DisableEnablePath(mod.filePath);
    MovedBack(files, mod.filePath, mod.filePath + DisabledSuffix);
  }

  /** The ModManager object: the configured Mods folder, the copy of it kept in the
      settings store, and the disk it works on. */
  class Manager {
    var modsPath: string
    /** The `modsPath` entry of the settings store. */
    var storedModsPath: Option<string>
    const disk: Disk

    /** The folder detection the constructor starts is not modelled: the folder starts
        unset. */
    constructor(disk: Disk)
      ensures this.disk == disk && modsPath == [] && storedModsPath == None
    {
      this.disk := disk;
      modsPath := [];
      storedModsPath := None;
    }

    /** What scanModsFolder yields when `readdir` of the folder gives `listing`. */
    function ScanResult(listing: Listing, mint: string -> string): (r: Result<seq<ModInfo>>)
      reads this, disk
      ensures r.Success? <==> modsPath != [] && disk.Exists(modsPath)
      ensures modsPath == [] ==> r == Failure("Mods folder not configured. Please select your Sims 4 Mods folder.")
      ensures modsPath != [] && !disk.Exists(modsPath) ==> r == Failure("Mods folder not found: " + modsPath)
      ensures r.Success? ==> r.value == ScanListing(modsPath, listing, disk.files, disk.unreadable, mint)
    {
      if modsPath == [] then Failure("Mods folder not configured. Please select your Sims 4 Mods folder.")
      else if !disk.Exists(modsPath) then Failure("Mods folder not found: " + modsPath)
      else Success(ScanListing(modsPath, listing, disk.files, disk.unreadable, mint))
    }

    /** Every record a successful scan returns is enabled, names a file on disk and passed
        the extension test. */
    lemma ScanResultEnabled(listing: Listing, mint: string -> string)
      requires NamesWellFormed(listing)
      ensures var r := ScanResult(listing, mint);
        r.Success? ==> forall m :: m in r.value ==> m.enabled && m.filePath in disk.files && IsScannedName(m.filename)
    {
      ScannedListingEnabled(modsPath, listing, disk.files, disk.unreadable, mint);
    }

    method ScanModsFolder(listing: Listing, mint: string -> string) returns (r: Result<seq<ModInfo>>)
      ensures r == ScanResult(listing, mint)
    {
      if modsPath == [] {
        return Failure("Mods folder not configured. Please select your Sims 4 Mods folder.");
      }
      if !disk.Exists(modsPath) {
        return Failure("Mods folder not found: " + modsPath);
      }
      var mods := ScanDirectory(disk, modsPath, listing, mint, []);
      assert mods == ScanListing(modsPath, listing, disk.files, disk.unreadable, mint);
      r := Success(mods);
    }

    /** findModById: a fresh scan, then the first record with that id. */
    method FindModById(modId: string, listing: Listing, mint: string -> string) returns (r: Result<Option<ModInfo>>)
      ensures var scan := ScanResult(listing, mint);
        && (scan.Failure? ==> r == Failure(scan.error))
        && (scan.Success? ==> r == Success(FindById(scan.value, modId)))
    {
      var scan := ScanModsFolder(listing, mint);
      if scan.Failure? {
        return Failure(scan.error);
      }
      r := Success(FindById(scan.value, modId));
    }

    /** enableMod. Every record the scan finds is already enabled, so on a folder whose
        entries are well formed it never renames anything. */
    method EnableMod(modId: string, listing: Listing, mint: string -> string) returns (r: Outcome)
      modifies disk
      ensures disk.dirs == old(disk.dirs) && disk.locked == old(disk.locked) && disk.unreadable == old(disk.unreadable)
      ensures var scan := old(ScanResult(listing, mint));
        && (scan.Failure? ==> r == Fail(scan.error) && disk.files == old(disk.files))
        && (scan.Success? && FindById(scan.value, modId).None? ==>
              r == Fail("Mod not found: " + modId) && disk.files == old(disk.files))
        && (scan.Success? && FindById(scan.value, modId).Some? && FindById(scan.value, modId).value.enabled ==>
              r == Pass && disk.files == old(disk.files))
      ensures NamesWellFormed(listing) ==> disk.files == old(disk.files)
    {
      ghost var scan := ScanResult(listing, mint);
      var found := FindModById(modId, listing, mint);
      if found.Failure? {
        return Fail(found.error);
      }
      if found.value.None? {
        return Fail("Mod not found: " + modId);
      }
      var mod := found.value.value;
      if NamesWellFormed(listing) {
        ScanResultEnabled(listing, mint);
        assert mod in scan.value;
      }
      var updated;
      updated, r := ApplyEnable(disk, mod);
    }

    /** disableMod: a fresh scan, the lookup, then the rename to `path + ".disabled"`. */
    method DisableMod(modId: string, listing: Listing, mint: string -> string) returns (r: Outcome)
      modifies disk
      ensures disk.dirs == old(disk.dirs) && disk.locked == old(disk.locked) && disk.unreadable == old(disk.unreadable)
      ensures var scan := old(ScanResult(listing, mint));
        && (scan.Failure? ==> r == Fail(scan.error) && disk.files == old(disk.files))
        && (scan.Success? && FindById(scan.value, modId).None? ==>
              r == Fail("Mod not found: " + modId) && disk.files == old(disk.files))
        && (scan.Success? && FindById(scan.value, modId).Some? ==>
              var mod := FindById(scan.value, modId).value;
              var to := mod.filePath + DisabledSuffix;
              var check := RenameCheck(old(disk.files), disk.dirs, disk.locked, mod.filePath, to);
              (mod.enabled && check.Pass? ==> r == Pass && disk.files == Moved(old(disk.files), mod.filePath, to))
              && (mod.enabled && check.Fail? ==>
                    r == Fail("Failed to disable mod: Error: " + check.error) && disk.files == old(disk.files))
              && (!mod.enabled ==> r == Pass && disk.files == old(disk.files)))
    {
      var found := FindModById(modId, listing, mint);
      if found.Failure? {
        return Fail(found.error);
      }
      if found.value.None? {
        return Fail("Mod not found: " + modId);
      }
      var updated;
      updated, r := ApplyDisable(disk, found.value.value);
    }

    /** checkConflicts: a fresh scan, then the report over its records. */
    method CheckConflicts(listing: Listing, mint: string -> string) returns (r: Result<ConflictReport>)
      ensures var scan := ScanResult(listing, mint);
        && (scan.Failure? ==> r == Failure(scan.error))
        && (scan.Success? ==> r == Success(ReportOf(scan.value)))
    {
      var scan := ScanModsFolder(listing, mint);
      if scan.Failure? {
        return Failure(scan.error);
      }
      var report := ConflictsAmong(scan.value);
      r := Success(report);
    }

    method SetModsPath(path: string)
      modifies this
      ensures modsPath == path && storedModsPath == Some(path)
    {
      modsPath := path;
      storedModsPath := Some(path);
    }

    method GetModsPath() returns (path: string)
      ensures path == modsPath
    {
      path := modsPath;
    }
  }
}
