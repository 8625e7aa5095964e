/** The record store of src/services/DatabaseManager.ts: four SQLite tables (`mods`,
    `profiles`, `git_commits`, `app_settings`), each held as a map from its primary key
    to the remaining columns. While the connection is absent every operation throws. */
module DatabaseManager {
  import opened Wrappers
  import opened Types
  import opened Text
  import Rows

  const NotInitialized := "Database not initialized"

  // ---------------------------------------------------------------- `x || null`

  /** `n || null` for an optional number: 0 is falsy and becomes NULL as well. */
  function NumberOrNull(n: Option<int>): (r: Option<int>)
    ensures r.Some? <==> n.Some? && n.value != 0
    ensures r.Some? ==> r == n
  {
    if n.Some? && n.value != 0 then n else None
  }

  /** `s || null` for an optional string: the empty string is falsy and becomes NULL. */
  function TextOrNull(s: Option<string>): (r: Option<string>)
    ensures r.Some? <==> s.Some? && s.value != []
    ensures r.Some? ==> r == s
  {
    if s.Some? && s.value != [] then s else None
  }

  // ---------------------------------------------------------------- mods

  /** The columns of one `mods` row other than the `id` key. `enabled` is the INTEGER
      column, `category` the TEXT column, which only ever receives a category name; the
      dates are the instants their ISO text stands for; the JSON array columns are the
      arrays they encode. */
  datatype ModRow = ModRow(
    name: string,
    filename: string,
    version: string,
    author: string,
    filePath: string,
    fileSize: nat,
    fileHash: string,
    lastModified: int,
    enabled: int,
    category: ModCategory,
    conflicts: seq<string>,
    dependencies: seq<string>,
    curseforgeId: Option<int>,
    downloadUrl: Option<string>,
    thumbnailUrl: Option<string>,
    description: Option<string>,
    tags: seq<string>,
    rating: Option<int>,
    installDate: int,
    lastUsed: Option<int>)

  /** The parameters saveMod binds: `enabled ? 1 : 0`, and `|| null` on the optional
      number and text columns. */
  function EncodeMod(m: ModInfo): (r: ModRow)
    ensures r.enabled == 0 || r.enabled == 1
    ensures r.enabled == 1 <==> m.enabled
  {
    ModRow(m.name, m.filename, m.version, m.author, m.filePath, m.fileSize, m.fileHash,
      m.lastModified, if m.enabled then 1 else 0, m.category, m.conflicts, m.dependencies,
      NumberOrNull(m.curseforgeId), TextOrNull(m.downloadUrl), TextOrNull(m.thumbnailUrl),
      TextOrNull(m.description), m.tags, NumberOrNull(m.rating), m.installDate, m.lastUsed)
  }

  /** rowToModInfo: the flag is `enabled === 1`. */
  function DecodeMod(id: string, row: ModRow): (m: ModInfo)
    ensures m.id == id && m.name == row.name && (m.enabled <==> row.enabled == 1)
  {
    ModInfo(id, row.name, row.filename, row.version, row.author, row.filePath, row.fileSize,
      row.fileHash, row.lastModified, row.enabled == 1, row.category, row.conflicts,
      row.dependencies, row.curseforgeId, row.downloadUrl, row.thumbnailUrl, row.description,
      row.tags, row.rating, row.installDate, row.lastUsed)
  }

  /** The optional fields `|| null` would turn into NULL although they are present. */
  predicate HasFalsyOptional(m: ModInfo) {
    || m.curseforgeId == Some(0) || m.rating == Some(0)
    || m.downloadUrl == Some([]) || m.thumbnailUrl == Some([]) || m.description == Some([])
  }

  /** A record reads back from its row exactly as saved unless one of its optional fields
      holds 0 or the empty string, which comes back as null. The flag always survives. */
  lemma ModRoundTrip(m: ModInfo)
    ensures DecodeMod(m.id, EncodeMod(m)).enabled == m.enabled
    ensures DecodeMod(m.id, EncodeMod(m)) == m <==> !HasFalsyOptional(m)
  {
    var back := DecodeMod(m.id, EncodeMod(m));
    if back == m {
      assert back.curseforgeId == m.curseforgeId && back.rating == m.rating;
      assert back.downloadUrl == m.downloadUrl && back.thumbnailUrl == m.thumbnailUrl;
      assert back.description == m.description;
    }
  }

  function FindMod(table: map<string, ModRow>, id: string): (r: Option<ModInfo>)
    ensures r.None? <==> id !in table
    ensures r.Some? ==> r.value.id == id
  {
    if id in table then Some(DecodeMod(id, table[id])) else None
  }

  function ModNameLe(a: ModRow, b: ModRow): bool {
    LexLe(a.name, b.name)
  }

  lemma ModNameLeTotal()
    ensures Rows.TotalPreorder(ModNameLe)
  {
    forall a: ModRow, b: ModRow ensures ModNameLe(a, b) || ModNameLe(b, a) {
      LexLeTotal(a.name, b.name);
    }
    forall a: ModRow, b: ModRow, c: ModRow | ModNameLe(a, b) && ModNameLe(b, c) ensures ModNameLe(a, c) {
      LexLeTrans(a.name, b.name, c.name);
    }
  }

  /** The rows `WHERE enabled = 1`. */
  function EnabledRows(table: map<string, ModRow>): (r: map<string, ModRow>)
    ensures forall id :: id in r <==> id in table && table[id].enabled == 1
    ensures forall id :: id in r ==> r[id] == table[id]
  {
    map id | id in table && table[id].enabled == 1 :: table[id]
  }

  /** `mods` is `SELECT * FROM mods ... ORDER BY name` over `table`: every row once, read
      back, in ascending name order. */
  ghost predicate ModsListed(table: map<string, ModRow>, mods: seq<ModInfo>) {
    && |mods| == |table|
    && (forall i :: 0 <= i < |mods| ==> FindMod(table, mods[i].id) == Some(mods[i]))
    && (forall id :: id in table ==> FindMod(table, id).value in mods)
    && (forall i, j :: 0 <= i < j < |mods| ==> LexLe(mods[i].name, mods[j].name))
  }

  /** The ordered listing of a mod table. */
  method ListMods(table: map<string, ModRow>) returns (mods: seq<ModInfo>)
    ensures ModsListed(table, mods)
  {
    ModNameLeTotal();
    var keys, rows := Rows.SortedRows(table, ModNameLe);
    mods := DecodeMods(keys, rows);
    SortedListing(table, keys, rows, mods);
  }

  /** `.map(row => ...)` over the selected mod rows, each under its own id. */
  function DecodeMods(ids: seq<string>, rows: seq<ModRow>): (r: seq<ModInfo>)
    requires |ids| == |rows|
    ensures |r| == |rows|
    ensures forall i :: 0 <= i < |r| ==> r[i] == DecodeMod(ids[i], rows[i])
  {
    if rows == [] then [] else [DecodeMod(ids[0], rows[0])] + DecodeMods(ids[1..], rows[1..])
  }

  /** A listing sorted by name, decoded, lists the table. */
  lemma SortedListing(table: map<string, ModRow>, keys: seq<string>, rows: seq<ModRow>, mods: seq<ModInfo>)
    requires |keys| == |rows| == |table| == |mods|
    requires forall i :: 0 <= i < |keys| ==> keys[i] in table && rows[i] == table[keys[i]]
    requires forall k :: k in table ==> k in keys
    requires forall i, j :: 0 <= i < j < |rows| ==> LexLe(rows[i].name, rows[j].name)
    requires forall i :: 0 <= i < |mods| ==> mods[i] == DecodeMod(keys[i], rows[i])
    ensures ModsListed(table, mods)
  {
    forall id | id in table ensures FindMod(table, id).value in mods {
      var i :| 0 <= i < |keys| && keys[i] == id;
      assert mods[i] == FindMod(table, id).value;
    }
  }

  /** The listing of the enabled rows holds exactly the enabled records of the table. */
  lemma EnabledListing(table: map<string, ModRow>, mods: seq<ModInfo>)
    requires ModsListed(EnabledRows(table), mods)
    ensures forall m :: m in mods <==> exists id :: id in table && FindMod(table, id) == Some(m) && m.enabled
  {
    var enabled := EnabledRows(table);
    forall m ensures m in mods <==> exists id :: id in table && FindMod(table, id) == Some(m) && m.enabled {
      if m in mods {
        var i :| 0 <= i < |mods| && mods[i] == m;
        assert FindMod(enabled, m.id) == Some(m);
        assert FindMod(table, m.id) == Some(m);
      }
      if exists id :: id in table && FindMod(table, id) == Some(m) && m.enabled {
        var id :| id in table && FindMod(table, id) == Some(m) && m.enabled;
        assert FindMod(enabled, id).value in mods;
      }
    }
  }

  // ---------------------------------------------------------------- profiles

  /** The columns of one `profiles` row other than the `id` key. */
  datatype ProfileRow = ProfileRow(
    name: string,
    description: Option<string>,
    modIds: seq<string>,
    gitBranch: string,
    createdDate: int,
    lastUsed: int,
    isActive: int)

  /** The parameters saveProfile binds. */
  function EncodeProfile(p: Profile): (r: ProfileRow)
    ensures r.isActive == 1 <==> p.isActive
    ensures r.isActive == 0 || r.isActive == 1
  {
    ProfileRow(p.name, TextOrNull(p.description), p.modIds, p.gitBranch, p.createdDate, p.lastUsed,
      if p.isActive then 1 else 0)
  }

  /** rowToProfile: the flag is `isActive === 1`. */
  function DecodeProfile(id: string, row: ProfileRow): (p: Profile)
    ensures p.id == id && p.name == row.name && (p.isActive <==> row.isActive == 1)
  {
    Profile(id, row.name, row.description, row.modIds, row.gitBranch, row.createdDate, row.lastUsed,
      row.isActive == 1)
  }

  /** A profile reads back as saved unless its description is the empty string. */
  lemma ProfileRoundTrip(p: Profile)
    ensures DecodeProfile(p.id, EncodeProfile(p)).isActive == p.isActive
    ensures DecodeProfile(p.id, EncodeProfile(p)) == p <==> p.description != Some([])
  {
    var back := DecodeProfile(p.id, EncodeProfile(p));
    if back == p {
      assert back.description == p.description;
    }
  }

  function FindProfile(table: map<string, ProfileRow>, id: string): (r: Option<Profile>)
    ensures r.None? <==> id !in table
    ensures r.Some? ==> r.value.id == id
  {
    if id in table then Some(DecodeProfile(id, table[id])) else None
  }

  /** setActiveProfile's transaction: `UPDATE profiles SET isActive = 0`, then
      `UPDATE profiles SET isActive = 1, lastUsed = ? WHERE id = ?`. Afterwards the
      profile `id`, when there is one, is the only active profile, stamped with `now`;
      every other column of every row is unchanged. */
  function Activated(table: map<string, ProfileRow>, id: string, now: int): (r: map<string, ProfileRow>)
    ensures r.Keys == table.Keys
    ensures forall k :: k in r ==> (r[k].isActive == 1 <==> k == id)
    ensures forall k :: k in r ==> r[k].isActive == 0 || r[k].isActive == 1
    ensures id in r ==> r[id] == table[id].(isActive := 1, lastUsed := now)
    ensures forall k :: k in r && k != id ==> r[k] == table[k].(isActive := 0)
  {
    map k | k in table :: if k == id then table[k].(isActive := 1, lastUsed := now) else table[k].(isActive := 0)
  }

  /** After the transaction at most one profile is active: exactly the requested one, or
      none when no profile has that id. */
  lemma ActivatedAlone(table: map<string, ProfileRow>, id: string, now: int)
    ensures var r := Activated(table, id, now);
      forall k :: FindProfile(r, k).Some? && FindProfile(r, k).value.isActive <==> k == id && id in table
  {
  }

  function ProfileNameLe(a: ProfileRow, b: ProfileRow): bool {
    LexLe(a.name, b.name)
  }

  lemma ProfileNameLeTotal()
    ensures Rows.TotalPreorder(ProfileNameLe)
  {
    forall a: ProfileRow, b: ProfileRow ensures ProfileNameLe(a, b) || ProfileNameLe(b, a) {
      LexLeTotal(a.name, b.name);
    }
    forall a: ProfileRow, b: ProfileRow, c: ProfileRow | ProfileNameLe(a, b) && ProfileNameLe(b, c)
      ensures ProfileNameLe(a, c)
    {
      LexLeTrans(a.name, b.name, c.name);
    }
  }

  ghost predicate ProfilesListed(table: map<string, ProfileRow>, profiles: seq<Profile>) {
    && |profiles| == |table|
    && (forall i :: 0 <= i < |profiles| ==> FindProfile(table, profiles[i].id) == Some(profiles[i]))
    && (forall id :: id in table ==> FindProfile(table, id).value in profiles)
    && (forall i, j :: 0 <= i < j < |profiles| ==> LexLe(profiles[i].name, profiles[j].name))
  }

  // ---------------------------------------------------------------- git commits

  /** The columns of one `git_commits` row other than the `hash` key. */
  datatype CommitRow = CommitRow(message: string, date: int, author: string, modChanges: seq<ModChange>)

  function EncodeCommit(c: GitCommit): (r: CommitRow)
    ensures DecodeCommit(c.hash, r) == c
  {
    CommitRow(c.message, c.date, c.author, c.modChanges)
  }

  function DecodeCommit(hash: string, row: CommitRow): (c: GitCommit)
    ensures c.hash == hash && c.date == row.date
  {
    GitCommit(hash, row.message, row.date, row.author, row.modChanges)
  }

  /** `ORDER BY date DESC`: newer rows first. */
  function DateGe(a: CommitRow, b: CommitRow): bool {
    a.date >= b.date
  }

  lemma DateGeTotal()
    ensures Rows.TotalPreorder(DateGe)
  {
  }

  /** How many rows `LIMIT limit` lets through: SQLite reads a negative limit as none. */
  function LimitCount(limit: int, available: nat): (n: nat)
    ensures n <= available
    ensures limit < 0 ==> n == available
    ensures limit >= 0 ==> n == if limit < available then limit else available
  {
    if limit < 0 || limit >= available then available else limit
  }

  /** `commits` is `SELECT * FROM git_commits ORDER BY date DESC LIMIT limit` over `table`:
      stored commits read back, each at most once, newest first, as many as the limit allows, and no commit
      left out is newer than one returned. */
  ghost predicate CommitsPage(table: map<string, CommitRow>, limit: int, commits: seq<GitCommit>) {
    && |commits| == LimitCount(limit, |table|)
    && (forall i, j :: 0 <= i < j < |commits| ==> commits[i].hash != commits[j].hash)
    && (forall i :: 0 <= i < |commits| ==> commits[i].hash in table && commits[i] == DecodeCommit(commits[i].hash, table[commits[i].hash]))
    && (forall i, j :: 0 <= i < j < |commits| ==> commits[i].date >= commits[j].date)
    && (forall h, i :: h in table && 0 <= i < |commits| && (forall j :: 0 <= j < |commits| ==> commits[j].hash != h)
          ==> table[h].date <= commits[i].date)
  }

  /** `.map(row => ...)` over the selected commit rows, each under its own hash. */
  function DecodeCommits(hashes: seq<string>, rows: seq<CommitRow>): (r: seq<GitCommit>)
    requires |hashes| == |rows|
    ensures |r| == |rows|
    ensures forall i :: 0 <= i < |r| ==> r[i] == DecodeCommit(hashes[i], rows[i])
  {
    if rows == [] then [] else [DecodeCommit(hashes[0], rows[0])] + DecodeCommits(hashes[1..], rows[1..])
  }

  /** `ORDER BY date DESC LIMIT limit` over a commit table. */
  method NewestFirst(table: map<string, CommitRow>, limit: int) returns (page: seq<GitCommit>)
    ensures CommitsPage(table, limit, page)
  {
    DateGeTotal();
    var keys, rows := Rows.SortedRows(table, DateGe);
    var n := LimitCount(limit, |keys|);
    page := DecodeCommits(keys[..n], rows[..n]);
    SortedPage(table, keys, rows, limit, page);
  }

  /** The first rows of a listing sorted newest first, decoded, form a page. */
  lemma SortedPage(table: map<string, CommitRow>, keys: seq<string>, rows: seq<CommitRow>, limit: int, page: seq<GitCommit>)
    requires |keys| == |rows| == |table|
    requires forall i :: 0 <= i < |keys| ==> keys[i] in table && rows[i] == table[keys[i]]
    requires forall k :: k in table ==> k in keys
    requires forall i, j :: 0 <= i < j < |keys| ==> keys[i] != keys[j]
    requires forall i, j :: 0 <= i < j < |rows| ==> rows[i].date >= rows[j].date
    requires |page| == LimitCount(limit, |keys|)
    requires forall i :: 0 <= i < |page| ==> page[i] == DecodeCommit(keys[i], rows[i])
    ensures CommitsPage(table, limit, page)
  {
    forall h, i | h in table && 0 <= i < |page| && (forall j :: 0 <= j < |page| ==> page[j].hash != h)
      ensures table[h].date <= page[i].date
    {
      var k :| 0 <= k < |keys| && keys[k] == h;
      assert |page| <= k;
      assert rows[i].date >= rows[k].date;
    }
  }

  // ---------------------------------------------------------------- settings

  /** A JSON value; its text form is not modelled. */
  datatype Json =
    | JNull
    | JBool(b: bool)
    | JNumber(n: int)
    | JString(s: string)
    | JArray(items: seq<Json>)
    | JObject(fields: map<string, Json>)

  /** The TEXT of an `app_settings` value: the JSON text of a value, which setSetting
      always writes, or text `JSON.parse` rejects, left by another writer. */
  datatype SettingText = JsonText(value: Json) | OtherText(text: string)

  /** What getSetting returns: null for a missing key, the parsed value, or the raw text
      when parsing throws. */
  datatype Setting = Missing | Decoded(value: Json) | Raw(text: string)

  function ParseSetting(t: SettingText): (r: Setting)
    ensures r != Missing
    ensures t.JsonText? <==> r.Decoded?
  {
    match t
    case JsonText(v) => Decoded(v)
    case OtherText(s) => Raw(s)
  }

  function ReadSetting(table: map<string, SettingText>, key: string): (r: Setting)
    ensures r == Missing <==> key !in table
  {
    if key in table then ParseSetting(table[key]) else Missing
  }

  /** A value set is the value read back. */
  lemma SetThenGet(table: map<string, SettingText>, key: string, value: Json, other: string)
    ensures ReadSetting(table[key := JsonText(value)], key) == Decoded(value)
    ensures other != key ==> ReadSetting(table[key := JsonText(value)], other) == ReadSetting(table, other)
  {
  }

  // ---------------------------------------------------------------- the store object

  class Store {
    /** Whether `db` holds a connection. */
    var open: bool
    var mods: map<string, ModRow>
    var profiles: map<string, ProfileRow>
    var commits: map<string, CommitRow>
    var settings: map<string, SettingText>

    /** The database file may already hold rows from an earlier run. */
    constructor(mods: map<string, ModRow>, profiles: map<string, ProfileRow>,
                commits: map<string, CommitRow>, settings: map<string, SettingText>)
      ensures !open
      ensures this.mods == mods && this.profiles == profiles && this.commits == commits && this.settings == settings
    {
      open := false;
      this.mods := mods;
      this.profiles := profiles;
      this.commits := commits;
      this.settings := settings;
    }

    /** initialize: open the file and create missing tables; existing rows stay. */
    method Initialize()
      modifies this
      ensures open
      ensures mods == old(mods) && profiles == old(profiles) && commits == old(commits) && settings == old(settings)
    {
      open := true;
    }

    method SaveMod(m: ModInfo) returns (r: Outcome)
      modifies this
      ensures open == old(open) && profiles == old(profiles) && commits == old(commits) && settings == old(settings)
      ensures !open ==> r == Fail(NotInitialized) && mods == old(mods)
      ensures open ==> r == Pass && mods == old(mods)[m.id := EncodeMod(m)]
    {
      if !open {
        return Fail(NotInitialized);
      }
      mods := mods[m.id := EncodeMod(m)];
      r := Pass;
    }

    method GetMod(id: string) returns (r: Result<Option<ModInfo>>)
      ensures r == if open then Success(FindMod(mods, id)) else Failure(NotInitialized)
    {
      if !open {
        return Failure(NotInitialized);
      }
      if id in mods {
        return Success(Some(DecodeMod(id, mods[id])));
      }
      r := Success(None);
    }

    method GetAllMods() returns (r: Result<seq<ModInfo>>)
      ensures !open ==> r == Failure(NotInitialized)
      ensures open ==> r.Success? && ModsListed(mods, r.value)
    {
      if !open {
        return Failure(NotInitialized);
      }
      var all := ListMods(mods);
      r := Success(all);
    }

    /** getEnabledMods: `WHERE enabled = 1 ORDER BY name`. */
    method GetEnabledMods() returns (r: Result<seq<ModInfo>>)
      ensures !open ==> r == Failure(NotInitialized)
      ensures open ==> r.Success? && ModsListed(EnabledRows(mods), r.value)
    {
      if !open {
        return Failure(NotInitialized);
      }
      var enabled := ListMods(EnabledRows(mods));
      r := Success(enabled);
    }

    method DeleteMod(id: string) returns (r: Outcome)
      modifies this
      ensures open == old(open) && profiles == old(profiles) && commits == old(commits) && settings == old(settings)
      ensures !open ==> r == Fail(NotInitialized) && mods == old(mods)
      ensures open ==> r == Pass && mods == old(mods) - {id}
    {
      if !open {
        return Fail(NotInitialized);
      }
      mods := mods - {id};
      r := Pass;
    }

    method SaveProfile(p: Profile) returns (r: Outcome)
      modifies this
      ensures open == old(open) && mods == old(mods) && commits == old(commits) && settings == old(settings)
      ensures !open ==> r == Fail(NotInitialized) && profiles == old(profiles)
      ensures open ==> r == Pass && profiles == old(profiles)[p.id := EncodeProfile(p)]
    {
      if !open {
        return Fail(NotInitialized);
      }
      profiles := profiles[p.id := EncodeProfile(p)];
      r := Pass;
    }

    method GetProfile(id: string) returns (r: Result<Option<Profile>>)
      ensures r == if open then Success(FindProfile(profiles, id)) else Failure(NotInitialized)
    {
      if !open {
        return Failure(NotInitialized);
      }
      if id in profiles {
        return Success(Some(DecodeProfile(id, profiles[id])));
      }
      r := Success(None);
    }

    method GetAllProfiles() returns (r: Result<seq<Profile>>)
      ensures !open ==> r == Failure(NotInitialized)
      ensures open ==> r.Success? && ProfilesListed(profiles, r.value)
    {
      if !open {
        return Failure(NotInitialized);
      }
      ProfileNameLeTotal();
      var keys, rows := Rows.SortedRows(profiles, ProfileNameLe);
      var all := seq(|keys|, i requires 0 <= i < |keys| => DecodeProfile(keys[i], rows[i]));
      forall id | id in profiles ensures FindProfile(profiles, id).value in all {
        var i :| 0 <= i < |keys| && keys[i] == id;
        assert all[i] == FindProfile(profiles, id).value;
      }
      r := Success(all);
    }

    /** getActiveProfile: `.get()` of `WHERE isActive = 1` yields one active row, which
        one SQLite does not specify, or null when no row is active. */
    method GetActiveProfile() returns (r: Result<Option<Profile>>)
      ensures !open ==> r == Failure(NotInitialized)
      ensures open ==> r.Success?
      ensures open && r.value.None? ==> forall id :: id in profiles ==> profiles[id].isActive != 1
      ensures open && r.value.Some? ==> FindProfile(profiles, r.value.value.id) == r.value && r.value.value.isActive
    {
      if !open {
        return Failure(NotInitialized);
      }
      if id :| id in profiles && profiles[id].isActive == 1 {
        r := Success(Some(DecodeProfile(id, profiles[id])));
      } else {
        r := Success(None);
      }
    }

    /** setActiveProfile, with `new Date()` given as `now`. */
    method SetActiveProfile(id: string, now: int) returns (r: Outcome)
      modifies this
      ensures open == old(open) && mods == old(mods) && commits == old(commits) && settings == old(settings)
      ensures !open ==> r == Fail(NotInitialized) && profiles == old(profiles)
      ensures open ==> r == Pass && profiles == Activated(old(profiles), id, now)
    {
      if !open {
        return Fail(NotInitialized);
      }
      var deactivated := map k | k in profiles :: profiles[k].(isActive := 0);
      if id in deactivated {
        deactivated := deactivated[id := deactivated[id].(isActive := 1, lastUsed := now)];
      }
      profiles := deactivated;
      r := Pass;
    }

    method DeleteProfile(id: string) returns (r: Outcome)
      modifies this
      ensures open == old(open) && mods == old(mods) && commits == old(commits) && settings == old(settings)
      ensures !open ==> r == Fail(NotInitialized) && profiles == old(profiles)
      ensures open ==> r == Pass && profiles == old(profiles) - {id}
    {
      if !open {
        return Fail(NotInitialized);
      }
      profiles := profiles - {id};
      r := Pass;
    }

    method SaveCommit(c: GitCommit) returns (r: Outcome)
      modifies this
      ensures open == old(open) && mods == old(mods) && profiles == old(profiles) && settings == old(settings)
      ensures !open ==> r == Fail(NotInitialized) && commits == old(commits)
      ensures open ==> r == Pass && commits == old(commits)[c.hash := EncodeCommit(c)]
    {
      if !open {
        return Fail(NotInitialized);
      }
      commits := commits[c.hash := EncodeCommit(c)];
      r := Pass;
    }

    /** getCommits(limit); the caller's default is 50. */
    method GetCommits(limit: int) returns (r: Result<seq<GitCommit>>)
      ensures !open ==> r == Failure(NotInitialized)
      ensures open ==> r.Success? && CommitsPage(commits, limit, r.value)
    {
      if !open {
        return Failure(NotInitialized);
      }
      var page := NewestFirst(commits, limit);
      r := Success(page);
    }

    method SetSetting(key: string, value: Json) returns (r: Outcome)
      modifies this
      ensures open == old(open) && mods == old(mods) && profiles == old(profiles) && commits == old(commits)
      ensures !open ==> r == Fail(NotInitialized) && settings == old(settings)
      ensures open ==> r == Pass && settings == old(settings)[key := JsonText(value)]
    {
      if !open {
        return Fail(NotInitialized);
      }
      settings := settings[key := JsonText(value)];
      r := Pass;
    }

    method GetSetting(key: string) returns (r: Result<Setting>)
      ensures r == if open then Success(ReadSetting(settings, key)) else Failure(NotInitialized)
    {
      if !open {
        return Failure(NotInitialized);
      }
      if key !in settings {
        return Success(Missing);
      }
      match settings[key] {
        case JsonText(v) => r := Success(Decoded(v));
        case OtherText(text) => r := Success(Raw(text));
      }
    }

    /** getAllSettings: every row's value parsed, or its raw text, under its key. */
    method GetAllSettings() returns (r: Result<map<string, Setting>>)
      ensures !open ==> r == Failure(NotInitialized)
      ensures open ==> r.Success? && r.value.Keys == settings.Keys
      ensures open ==> forall k :: k in settings ==> r.value[k] == ReadSetting(settings, k)
    {
      if !open {
        return Failure(NotInitialized);
      }
      var result: map<string, Setting> := map[];
      var remaining := settings.Keys;
      while remaining != {}
        invariant remaining <= settings.Keys
        invariant result.Keys == settings.Keys - remaining
        invariant forall k :: k in result ==> result[k] == ParseSetting(settings[k])
        decreases remaining
      {
        var key :| key in remaining;
        match settings[key] {
          case JsonText(v) => result := result[key := Decoded(v)];
          case OtherText(text) => result := result[key := Raw(text)];
        }
        remaining := remaining - {key};
      }
      r := Success(result);
    }

    /** close: an open store drops its connection; a closed one stays closed. */
    method Close()
      modifies this
      ensures !open
      ensures mods == old(mods) && profiles == old(profiles) && commits == old(commits) && settings == old(settings)
    {
      if open {
        open := false;
      }
    }
  }
}
