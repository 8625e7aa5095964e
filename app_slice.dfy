/** The renderer's app slice (src/renderer/src/store/slices/appSlice.ts): the settings,
    the initialisation flag and the layout state, changed in place by reducers and by the
    cases of its two thunks. */
module AppSlice {
  import opened Wrappers
  import opened Text
  import opened Types

  /** defaultSettings: no paths, backups and update checks on, light theme, English. */
  const DefaultSettings := AppSettings("", "", true, true, Light, "en")

  /** A `Partial<AppSettings>`: each field the payload carries. */
  datatype SettingsPatch = SettingsPatch(
    simsInstallPath: Option<string>,
    modsFolder: Option<string>,
    autoBackup: Option<bool>,
    checkUpdates: Option<bool>,
    theme: Option<Theme>,
    language: Option<string>)

  /** The patch that carries no field. */
  const NoChange := SettingsPatch(None, None, None, None, None, None)

  /** `{ ...settings, ...patch }`: a field the patch carries takes its value, any other
      keeps the old one. */
  function MergeSettings(s: AppSettings, p: SettingsPatch): (r: AppSettings)
    ensures p.simsInstallPath.Some? ==> r.simsInstallPath == p.simsInstallPath.value
    ensures p.simsInstallPath.None? ==> r.simsInstallPath == s.simsInstallPath
    ensures p.modsFolder.Some? ==> r.modsFolder == p.modsFolder.value
    ensures p.modsFolder.None? ==> r.modsFolder == s.modsFolder
    ensures p.autoBackup.Some? ==> r.autoBackup == p.autoBackup.value
    ensures p.autoBackup.None? ==> r.autoBackup == s.autoBackup
    ensures p.checkUpdates.Some? ==> r.checkUpdates == p.checkUpdates.value
    ensures p.checkUpdates.None? ==> r.checkUpdates == s.checkUpdates
    ensures p.theme.Some? ==> r.theme == p.theme.value
    ensures p.theme.None? ==> r.theme == s.theme
    ensures p.language.Some? ==> r.language == p.language.value
    ensures p.language.None? ==> r.language == s.language
  {
    AppSettings(
      p.simsInstallPath.GetOr(s.simsInstallPath), p.modsFolder.GetOr(s.modsFolder),
      p.autoBackup.GetOr(s.autoBackup), p.checkUpdates.GetOr(s.checkUpdates),
      p.theme.GetOr(s.theme), p.language.GetOr(s.language))
  }

  /** Two payloads as one: the later one's fields over the earlier one's. */
  function Then(p: SettingsPatch, q: SettingsPatch): SettingsPatch {
    SettingsPatch(
      if q.simsInstallPath.Some? then q.simsInstallPath else p.simsInstallPath,
      if q.modsFolder.Some? then q.modsFolder else p.modsFolder,
      if q.autoBackup.Some? then q.autoBackup else p.autoBackup,
      if q.checkUpdates.Some? then q.checkUpdates else p.checkUpdates,
      if q.theme.Some? then q.theme else p.theme,
      if q.language.Some? then q.language else p.language)
  }

  /** Two setSettings in a row amount to one with the combined payload; so the same
      payload twice is the same as once, and an empty payload changes nothing. */
  lemma MergeSettingsThen(s: AppSettings, p: SettingsPatch, q: SettingsPatch)
    ensures MergeSettings(MergeSettings(s, p), q) == MergeSettings(s, Then(p, q))
    ensures MergeSettings(MergeSettings(s, p), p) == MergeSettings(s, p)
    ensures MergeSettings(s, NoChange) == s
  {
  }

  /** `if (payload)`: the dialog returned a path that is neither null nor empty. */
  predicate Truthy(path: Option<string>) {
    path.Some? && path.value != ""
  }

  /** The two thunks: initialising the database and choosing the mods folder. */
  datatype AppThunk = InitializeApp | SelectModsFolder

  /** The fixed message a rejected thunk falls back to. */
  function DefaultError(t: AppThunk): string {
    match t
    case InitializeApp => "Failed to initialize app"
    case SelectModsFolder => "Failed to select folder"
  }

  /** The whole state of the slice, as one value. */
  datatype AppState = AppState(
    settings: AppSettings,
    isInitialized: bool,
    loading: bool,
    error: Option<string>,
    sidebarOpen: bool,
    currentPage: string)

  class AppStore {
    var settings: AppSettings
    var isInitialized: bool
    var loading: bool
    var error: Option<string>
    var sidebarOpen: bool
    var currentPage: string

    function State(): AppState
      reads this
    {
      AppState(settings, isInitialized, loading, error, sidebarOpen, currentPage)
    }

    /** initialState: default settings, not initialised, sidebar open, on the dashboard. */
    constructor()
      ensures State() == AppState(DefaultSettings, false, false, None, true, "dashboard")
    {
      settings, isInitialized, loading, error := DefaultSettings, false, false, None;
      sidebarOpen, currentPage := true, "dashboard";
    }

    method SetSettings(p: SettingsPatch)
      modifies this
      ensures State() == old(State()).(settings := MergeSettings(old(settings), p))
    {
      settings := MergeSettings(settings, p);
    }

    method SetSidebarOpen(b: bool)
      modifies this
      ensures State() == old(State()).(sidebarOpen := b)
    {
      sidebarOpen := b;
    }

    method SetCurrentPage(page: string)
      modifies this
      ensures State() == old(State()).(currentPage := page)
    {
      currentPage := page;
    }

    method SetError(e: Option<string>)
      modifies this
      ensures State() == old(State()).(error := e)
    {
      error := e;
    }

    method ClearError()
      modifies this
      ensures State() == old(State()).(error := None)
    {
      error := None;
    }

    method ToggleSidebar()
      modifies this
      ensures State() == old(State()).(sidebarOpen := !old(sidebarOpen))
    {
      sidebarOpen := !sidebarOpen;
    }

    /** initializeApp.pending: loading, with the error cleared. */
    method InitializePending()
      modifies this
      ensures State() == old(State()).(loading := true, error := None)
    {
      loading := true;
      error := None;
    }

    /** initializeApp.fulfilled: the app is initialised. */
    method InitializeFulfilled()
      modifies this
      ensures State() == old(State()).(loading := false, isInitialized := true)
    {
      loading := false;
      isInitialized := true;
    }

    /** selectModsFolder.pending: loading, but an earlier error stays. */
    method SelectFolderPending()
      modifies this
      ensures State() == old(State()).(loading := true)
    {
      loading := true;
    }

    /** selectModsFolder.fulfilled: a chosen path becomes the mods folder; a cancelled or
        empty choice changes no setting. */
    method SelectFolderFulfilled(path: Option<string>)
      modifies this
      ensures State() == old(State()).(loading := false, settings := settings)
      ensures settings == if Truthy(path) then old(settings).(modsFolder := path.value) else old(settings)
    {
      loading := false;
      if Truthy(path) {
        settings := settings.(modsFolder := path.value);
      }
    }

    /** The rejected case of both thunks: the error is the message or the fallback. */
    method Rejected(thunk: AppThunk, message: Option<string>)
      modifies this
      ensures State() == old(State()).(loading := false, error := Some(MessageOr(message, DefaultError(thunk))))
    {
      loading := false;
      error := Some(MessageOr(message, DefaultError(thunk)));
    }
  }
}
