/** The records the services and the store exchange: src/types/index.ts (ModInfo, Profile,
    GitCommit, conflicts, AppSettings) and src/shared/types.ts (ModFile and the commit
    record with changed files). Dates are milliseconds since the epoch. */
module Types {
  import opened Wrappers

  // ---------------------------------------------------------------- src/types/index.ts

  datatype ModCategory = Gameplay | Cas | BuildBuy | Script | Override | Other

  /** The string value of each `ModCategory` member. */
  function CategoryName(c: ModCategory): string {
    match c
    case Gameplay => "gameplay"
    case Cas => "cas"
    case BuildBuy => "build_buy"
    case Script => "script"
    case Override => "override"
    case Other => "other"
  }

  datatype ModInfo = ModInfo(
    id: string,
    name: string,
    filename: string,
    version: string,
    author: string,
    filePath: string,
    fileSize: nat,
    fileHash: string,
    lastModified: int,
    enabled: bool,
    category: ModCategory,
    conflicts: seq<string>,
    dependencies: seq<string>,
    curseforgeId: Option<int>,
    downloadUrl: Option<string>,
    thumbnailUrl: Option<string>,
    description: Option<string>,
    tags: seq<string>,
    rating: Option<int>,
    installDate: int,
    lastUsed: Option<int>)

  datatype Profile = Profile(
    id: string,
    name: string,
    description: Option<string>,
    modIds: seq<string>,
    gitBranch: string,
    createdDate: int,
    lastUsed: int,
    isActive: bool)

  /** The id of a mod and of a profile, as key functions for `FirstWithKey`. */
  function ModId(m: ModInfo): string { m.id }
  function ProfileId(p: Profile): string { p.id }

  /** `findIndex(x => key(x) === id)`: the first position whose key is `id`, shared by the
      mods and the profiles slices. */
  function FirstWithKey<T>(s: seq<T>, key: T -> string, id: string): (r: Option<nat>)
    ensures r.None? <==> forall i :: 0 <= i < |s| ==> key(s[i]) != id
    ensures r.Some? ==> (r.value < |s| && key(s[r.value]) == id
                         && forall i :: 0 <= i < r.value ==> key(s[i]) != id)
  {
    if s == [] then None
    else if key(s[0]) == id then Some(0)
    else match FirstWithKey(s[1..], key, id)
      case None => None
      case Some(k) => Some(k + 1)
  }

  /** Replacing an element by one with the same key leaves every key lookup where it was,
      so a second update of a key reaches the element the first one changed. */
  lemma {:induction false} FirstWithKeyAfterReplace<T>(s: seq<T>, key: T -> string, k: nat, x: T, id: string)
    requires k < |s| && key(x) == key(s[k])
    ensures FirstWithKey(s[k := x], key, id) == FirstWithKey(s, key, id)
  {
    if k > 0 {
      FirstWithKeyAfterReplace(s[1..], key, k - 1, x, id);
      assert s[k := x][1..] == s[1..][k - 1 := x];
    }
  }

  datatype ModAction = Added | Removed | Enabled | Disabled | Updated

  datatype ModChange = ModChange(modId: string, action: ModAction)

  datatype GitCommit = GitCommit(hash: string, message: string, date: int, author: string, modChanges: seq<ModChange>)

  datatype ConflictType = DuplicateFiles | IncompatibleVersions | MissingDependencies | ScriptConflicts

  datatype Severity = Low | Medium | High

  datatype ModConflict = ModConflict(
    kind: ConflictType,
    modIds: seq<string>,
    description: string,
    severity: Severity,
    autoResolvable: bool)

  datatype ConflictReport = ConflictReport(hasConflicts: bool, conflicts: seq<ModConflict>, suggestions: seq<string>)

  datatype Theme = Light | Dark

  datatype AppSettings = AppSettings(
    simsInstallPath: string,
    modsFolder: string,
    autoBackup: bool,
    checkUpdates: bool,
    theme: Theme,
    language: string)

  // ---------------------------------------------------------------- src/shared/types.ts

  datatype ModType = PackageMod | ScriptMod | CfgMod

  datatype ModFile = ModFile(
    id: string,
    name: string,
    fileName: string,
    path: string,
    kind: ModType,
    enabled: bool,
    version: Option<string>,
    author: Option<string>,
    description: Option<string>,
    fileSize: nat,
    dateAdded: int,
    dateModified: int,
    thumbnail: Option<string>,
    conflicts: Option<seq<string>>,
    dependencies: Option<seq<string>>)

  /** The commit record GitService returns: changed paths instead of parsed mod changes. */
  datatype FileCommit = FileCommit(hash: string, message: string, date: int, author: string, filesChanged: seq<string>)
}
