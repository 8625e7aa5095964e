/** The version-control manager of the mods folder (src/services/GitManager.ts). One
    simple-git handle, bound to the folder `modsPath` in the settings store chooses, or to
    the default folder; `simpleGit` throws when the folder is missing. Unlike GitService, most of its operations throw on failure, with the
    error rendered into the message as `Error: <message>`. */
module GitManager {
  import opened Wrappers
  import opened Text
  import opened Types
  import opened GitTool
  import opened CommitMessages

  // ---------------------------------------------------------------- repository path

  /** `join(process.env.USERPROFILE || '', 'Documents', 'Electronic Arts', 'The Sims 4', 'Mods')`. */
  function DefaultModsPath(userProfile: string): (r: string)
    ensures EndsWith(r, "Documents/Electronic Arts/The Sims 4/Mods")
    ensures userProfile != [] ==> StartsWith(r, userProfile)
  {
    var tail := "Documents/Electronic Arts/The Sims 4/Mods";
    if userProfile == [] then tail else userProfile + "/" + tail
  }

  /** getRepoPath: a non-empty stored `modsPath`, else the default folder. */
  function RepoPathFor(stored: Option<string>, userProfile: string): (r: string)
    ensures stored.Some? && stored.value != [] ==> r == stored.value
    ensures !(stored.Some? && stored.value != []) ==> r == DefaultModsPath(userProfile)
  {
    match stored
    case Some(p) => if p != [] then p else DefaultModsPath(userProfile)
    case None => DefaultModsPath(userProfile)
  }

  // ---------------------------------------------------------------- initialization

  const SetupCommitMessage := "Initial commit - Sims 4 Mod Manager setup"
  const DefaultUserName := "Sims 4 Mod Manager"
  const DefaultUserEmail := "sims4-mod-manager@local"

  /** `git config --get key`, where a throw reads as `''`, prints nothing but whitespace. */
  predicate Unset(repo: Repository, key: string) {
    ConfigGet(key) in repo.failing || Trim(repo.ConfigOf(key)) == []
  }

  /** The commands initializeRepository issues before ensureGitConfig, and whether it
      reaches ensureGitConfig. A `.gitignore` that cannot be written is only a warning. */
  function SetupSteps(repo: Repository, isRepo: bool): (seq<Command>, bool) {
    if CheckIsRepo in repo.failing then ([CheckIsRepo], false)
    else if isRepo then ([CheckIsRepo], true)
    else if Init in repo.failing then ([CheckIsRepo, Init], false)
    else
      var commit := [Add("."), Commit(SetupCommitMessage)];
      ([CheckIsRepo, Init, WriteIgnore] + Attempted(repo.failing, commit),
       FirstError(repo.failing, commit).None?)
  }

  /** ensureGitConfig's commands for one key: read it and, when unset, write `value`. */
  function KeySteps(repo: Repository, key: string, value: string): seq<Command> {
    [ConfigGet(key)] + (if Unset(repo, key) then [AddConfig(key, value)] else [])
  }

  /** The write of an unset key throws, which ends ensureGitConfig. */
  predicate KeyStops(repo: Repository, key: string, value: string) {
    Unset(repo, key) && AddConfig(key, value) in repo.failing
  }

  /** The commands of ensureGitConfig: `user.name`, then `user.email` unless writing the
      name threw. */
  function ConfigSteps(repo: Repository): seq<Command> {
    KeySteps(repo, "user.name", DefaultUserName)
      + (if KeyStops(repo, "user.name", DefaultUserName) then []
         else KeySteps(repo, "user.email", DefaultUserEmail))
  }

  /** Every command initializeRepository issues, in order. */
  function InitLog(repo: Repository, isRepo: bool): seq<Command> {
    var setup := SetupSteps(repo, isRepo);
    setup.0 + (if setup.1 then ConfigSteps(repo) else [])
  }

  /** `To(path, done + [cmd])` extends `To(path, done)` by the one command. */
  lemma ToSnoc(path: string, done: seq<Command>, cmd: Command)
    ensures To(path, done + [cmd]) == To(path, done) + [Issued(path, cmd)]
  {
    ToAppend(path, done, [cmd]);
    assert To(path, [cmd]) == [Issued(path, cmd)] + To(path, []);
  }

  /** Issue `cmd` after the commands `done` that were issued since the log read `start`. */
  method Issue(repo: Repository, path: string, cmd: Command, ghost start: seq<Issued>, ghost done: seq<Command>)
    returns (ok: Outcome)
    requires repo.log == start + To(path, done)
    modifies repo
    ensures repo.log == start + To(path, done + [cmd])
    ensures ok == if cmd in repo.failing then Fail(repo.failing[cmd]) else Pass
    ensures repo.repos == if cmd == Init && ok.Pass? then old(repo.repos) + {path} else old(repo.repos)
  {
    ok := repo.Run(path, cmd);
    ToSnoc(path, done, cmd);
  }

  /** The part of initializeRepository before ensureGitConfig. */
  method Setup(repo: Repository, path: string) returns (reached: bool)
    modifies repo
    ensures var setup := SetupSteps(repo, path in old(repo.repos));
      repo.log == old(repo.log) + To(path, setup.0) && reached == setup.1
  {
    var isRepo := path in repo.repos;
    var ok := repo.Run(path, CheckIsRepo);
    ToSnoc(path, [], CheckIsRepo);
    if ok.Fail? || isRepo {
      return ok.Pass?;
    }
    ok := Issue(repo, path, Init, old(repo.log), [CheckIsRepo]);
    if ok.Fail? {
      return false;
    }
    ok := Issue(repo, path, WriteIgnore, old(repo.log), [CheckIsRepo, Init]);
    ghost var commit := [Add("."), Commit(SetupCommitMessage)];
    var err := RunSteps(repo, path, [Add("."), Commit(SetupCommitMessage)]);
    ToAppend(path, [CheckIsRepo, Init, WriteIgnore], Attempted(repo.failing, commit));
    reached := err.None?;
  }

  /** Read `key` and write `value` to it when it is unset; `false` when the write throws. */
  method EnsureKey(repo: Repository, path: string, key: string, value: string) returns (ok: bool)
    modifies repo
    ensures repo.log == old(repo.log) + To(path, KeySteps(repo, key, value))
    ensures repo.repos == old(repo.repos)
    ensures ok == !KeyStops(repo, key, value)
  {
    var got := Issue(repo, path, ConfigGet(key), old(repo.log), []);
    var current := if got.Pass? then repo.ConfigOf(key) else "";
    if Trim(current) == [] {
      var written := Issue(repo, path, AddConfig(key, value), old(repo.log), [ConfigGet(key)]);
      return written.Pass?;
    }
    assert [ConfigGet(key)] + [] == [ConfigGet(key)];
    ok := true;
  }

  /** ensureGitConfig: default `user.name` and `user.email` where unset; errors are only
      warnings. */
  method EnsureGitConfig(repo: Repository, path: string)
    modifies repo
    ensures repo.log == old(repo.log) + To(path, ConfigSteps(repo))
    ensures repo.repos == old(repo.repos)
  {
    var ok := EnsureKey(repo, path, "user.name", DefaultUserName);
    ghost var names := KeySteps(repo, "user.name", DefaultUserName);
    if !ok {
      assert names + [] == names;
      return;
    }
    ok := EnsureKey(repo, path, "user.email", DefaultUserEmail);
    ToAppend(path, names, KeySteps(repo, "user.email", DefaultUserEmail));
  }

  // ---------------------------------------------------------------- snapshots and history

  /** The commands createSnapshot issues when every one succeeds: stage everything, read
      the status, and commit only when it lists files. */
  function SnapshotSteps(clean: bool, message: string): seq<Command> {
    [Add("."), Status] + (if clean then [] else [Commit(message)])
  }

  /** `Failed to create Git snapshot: ${error}`, a simple-git error rendering as `Error: <message>`. */
  function SnapshotError(e: string): string {
    "Failed to create Git snapshot: Error: " + e
  }

  /** One entry of getHistory: the author's name only, and the mod changes its message
      describes. */
  function HistoryEntry(e: LogEntry): (c: GitCommit)
    ensures c.hash == e.hash && c.message == e.message && c.date == e.date && c.author == e.authorName
    ensures c.modChanges == ParseModChanges(e.message) && |c.modChanges| <= 1
  {
    GitCommit(e.hash, e.message, e.date, e.authorName, ParseModChanges(e.message))
  }

  /** `log.all.map(...)`. */
  function HistoryEntries(entries: seq<LogEntry>): (r: seq<GitCommit>)
    ensures |r| == |entries|
    ensures forall i :: 0 <= i < |r| ==> r[i] == HistoryEntry(entries[i])
  {
    seq(|entries|, i requires 0 <= i < |entries| => HistoryEntry(entries[i]))
  }

  // ---------------------------------------------------------------- rollback

  /** The arguments rollbackToCommit passes to `show` to check that the commit exists. */
  function StatArgs(hash: string): seq<string> {
    [hash, "--stat"]
  }

  /** `checkout('main')`, falling back to `checkout('master')` when it throws: the commands
      issued and the error that escapes, if any. */
  function MainOrMaster(repo: Repository): (seq<Command>, Option<string>) {
    if Checkout("main") !in repo.failing then ([Checkout("main")], None)
    else if Checkout("master") in repo.failing then
      ([Checkout("main"), Checkout("master")], Some(repo.failing[Checkout("master")]))
    else ([Checkout("main"), Checkout("master")], None)
  }

  /** rollbackToCommit once the commit is known to exist: the backup branch, `main` or
      else `master`, and the hard reset, up to the first error. */
  function ResetRun(repo: Repository, hash: string, now: nat): (seq<Command>, Option<string>) {
    var backup := CheckoutLocalBranch(BackupBranch(now));
    var reset := Reset(["--hard", hash]);
    var branch := MainOrMaster(repo);
    if backup in repo.failing then ([backup], Some(repo.failing[backup]))
    else if branch.1.Some? then ([backup] + branch.0, branch.1)
    else ([backup] + branch.0 + [reset], if reset in repo.failing then Some(repo.failing[reset]) else None)
  }

  /** The commands rollbackToCommit issues and the message of the error that ends it, if
      any: the existence check (an empty `show` is an unknown commit), then the reset. */
  function RollbackRun(repo: Repository, hash: string, now: nat): (seq<Command>, Option<string>) {
    var show := Show(StatArgs(hash));
    if show in repo.failing then ([show], Some(repo.failing[show]))
    else if repo.ShowOf(StatArgs(hash)) == [] then ([show], Some("Commit " + hash + " not found"))
    else var rest := ResetRun(repo, hash, now); ([show] + rest.0, rest.1)
  }

  method SwitchToMain(repo: Repository, path: string) returns (err: Option<string>)
    modifies repo
    ensures repo.repos == old(repo.repos)
    ensures repo.log == old(repo.log) + To(path, MainOrMaster(repo).0) && err == MainOrMaster(repo).1
  {
    var ok := Issue(repo, path, Checkout("main"), old(repo.log), []);
    if ok.Pass? {
      return None;
    }
    ok := Issue(repo, path, Checkout("master"), old(repo.log), [Checkout("main")]);
    err := if ok.Fail? then Some(ok.error) else None;
  }

  method ResetToCommit(repo: Repository, path: string, hash: string, now: nat) returns (err: Option<string>)
    modifies repo
    ensures repo.repos == old(repo.repos)
    ensures repo.log == old(repo.log) + To(path, ResetRun(repo, hash, now).0) && err == ResetRun(repo, hash, now).1
  {
    var backup := CheckoutLocalBranch(BackupBranch(now));
    var ok := Issue(repo, path, backup, old(repo.log), []);
    if ok.Fail? {
      return Some(ok.error);
    }
    ghost var mid := repo.log;
    err := SwitchToMain(repo, path);
    ghost var branch := MainOrMaster(repo).0;
    ToAppend(path, [backup], branch);
    if err.Some? {
      return;
    }
    ok := Issue(repo, path, Reset(["--hard", hash]), old(repo.log), [backup] + branch);
    err := if ok.Fail? then Some(ok.error) else None;
  }

  /** initializeRepository against the repository at `path`. */
  method InitRepository(repo: Repository, path: string)
    modifies repo
    ensures repo.log == old(repo.log) + To(path, InitLog(repo, path in old(repo.repos)))
  {
    ghost var setup := SetupSteps(repo, path in repo.repos);
    ghost var config := ConfigSteps(repo);
    assert InitLog(repo, path in repo.repos) == setup.0 + (if setup.1 then config else []);
    var reached := Setup(repo, path);
    ghost var mid := repo.log;
    if reached {
      EnsureGitConfig(repo, path);
      ToAppend(path, setup.0, config);
    } else {
      assert setup.0 + [] == setup.0;
    }
  }

  /** The commands of createSnapshot against the repository at `path`. */
  method Snapshot(repo: Repository, path: string, message: string) returns (err: Option<string>)
    modifies repo
    ensures repo.repos == old(repo.repos)
    ensures var steps := SnapshotSteps(|repo.StatusOf(path).files| == 0, message);
      repo.log == old(repo.log) + To(path, Attempted(repo.failing, steps)) && err == FirstError(repo.failing, steps)
  {
    var tail: seq<Command> := if |repo.StatusOf(path).files| == 0 then [] else [Commit(message)];
    AttemptedAppend(repo.failing, [Add("."), Status], tail);
    err := RunSteps(repo, path, [Add("."), Status]);
    if err.Some? {
      return;
    }
    ghost var mid := repo.log;
    err := RunSteps(repo, path, tail);
    ToAppend(path, Attempted(repo.failing, [Add("."), Status]), Attempted(repo.failing, tail));
  }

  /** `new GitManager()`: `simpleGit` throws on a missing stored or default folder, and
      then no manager exists; otherwise the constructor runs. */
  method Open(stored: Option<string>, userProfile: string, repo: Repository) returns (r: Result<Manager>)
    modifies repo
    ensures RepoPathFor(stored, userProfile) !in repo.folders ==>
      r == Failure(ConstructError) && repo.log == old(repo.log)
    ensures RepoPathFor(stored, userProfile) in repo.folders ==>
      && r.Success? && fresh(r.value) && r.value.repo == repo && r.value.storedModsPath == stored
      && r.value.gitPath == RepoPathFor(stored, userProfile) && r.value.repoPath == r.value.gitPath
      && repo.log == old(repo.log) + To(r.value.gitPath, InitLog(repo, r.value.gitPath in old(repo.repos)))
  {
    if RepoPathFor(stored, userProfile) !in repo.folders {
      return Failure(ConstructError);
    }
    var m := new Manager(stored, userProfile, repo);
    r := Success(m);
  }

  class Manager {
    /** The folder the `git` handle was created for. */
    var gitPath: string
    /** `repoPath`: the folder `getRepositoryPath` reports, set before the handle is made. */
    var repoPath: string
    /** `modsPath` in the settings store. */
    var storedModsPath: Option<string>
    /** The repositories the handle reaches. */
    const repo: Repository

    /** The constructor once `simpleGit` has accepted the stored or default folder (`Open`
        is `new GitManager()` with that check): binds the handle there and starts
        initializeRepository; here the initialization runs to completion. */
    constructor(stored: Option<string>, userProfile: string, repo: Repository)
      modifies repo
      ensures this.repo == repo && storedModsPath == stored
      ensures gitPath == RepoPathFor(stored, userProfile) && repoPath == gitPath
      ensures repo.log == old(repo.log) + To(gitPath, InitLog(repo, gitPath in old(repo.repos)))
    {
      this.repo := repo;
      gitPath := RepoPathFor(stored, userProfile);
      repoPath := gitPath;
      storedModsPath := stored;
      new;
      InitializeRepository();
    }

    /** initializeRepository: on a folder that is not yet a repository, init, the
        `.gitignore` and one commit; then the user defaults. Every error is swallowed. */
    method InitializeRepository()
      modifies repo
      ensures repo.log == old(repo.log) + To(gitPath, InitLog(repo, gitPath in old(repo.repos)))
    {
      InitRepository(repo, gitPath);
    }

    /** createSnapshot: stage, then the status; a clean tree gives `''` and no commit,
        otherwise the new commit's hash. A failure throws `Failed to create Git snapshot`. */
    method CreateSnapshot(message: string) returns (r: Result<string>)
      modifies repo
      ensures repo.repos == old(repo.repos)
      ensures var clean := |repo.StatusOf(gitPath).files| == 0; var steps := SnapshotSteps(clean, message);
        && repo.log == old(repo.log) + To(gitPath, Attempted(repo.failing, steps))
        && r == match FirstError(repo.failing, steps)
             case None => Success(if clean then "" else repo.commitHash)
             case Some(e) => Failure(SnapshotError(e))
    {
      var err := Snapshot(repo, gitPath, message);
      match err
      case None =>
        r := Success(if |repo.StatusOf(gitPath).files| == 0 then "" else repo.commitHash);
      case Some(e) =>
        r := Failure(SnapshotError(e));
    }

    /** getHistory: the newest `maxCount` entries with the mod changes their messages
        describe; `[]` when `log` throws. */
    method GetHistory(maxCount: int) returns (commits: seq<GitCommit>)
      modifies repo
      ensures repo.repos == old(repo.repos) && repo.log == old(repo.log) + [Issued(gitPath, Log(maxCount))]
      ensures commits == if Log(maxCount) in repo.failing then []
        else HistoryEntries(Newest(repo.HistoryOf(gitPath), maxCount))
      ensures maxCount >= 0 ==> |commits| <= maxCount
      ensures forall c :: c in commits ==> |c.modChanges| <= 1
    {
      var ok := repo.Run(gitPath, Log(maxCount));
      if ok.Fail? {
        return [];
      }
      commits := HistoryEntries(Newest(repo.HistoryOf(gitPath), maxCount));
    }

    /** rollbackToCommit: throws `Failed to rollback to commit <hash>: Error: <message>`
        when the commit is unknown or a step fails. `now` stands for `Date.now()`. */
    method RollbackToCommit(hash: string, now: nat) returns (r: Outcome)
      modifies repo
      ensures repo.repos == old(repo.repos)
      ensures var run := RollbackRun(repo, hash, now);
        && repo.log == old(repo.log) + To(gitPath, run.0)
        && r == match run.1
             case None => Pass
             case Some(e) => Fail("Failed to rollback to commit " + hash + ": Error: " + e)
    {
      var failure := "Failed to rollback to commit " + hash + ": Error: ";
      var show := Show(StatArgs(hash));
      var ok := Issue(repo, gitPath, show, old(repo.log), []);
      if ok.Fail? {
        return Fail(failure + ok.error);
      }
      if repo.ShowOf(StatArgs(hash)) == [] {
        return Fail(failure + "Commit " + hash + " not found");
      }
      ghost var mid := repo.log;
      var err := ResetToCommit(repo, gitPath, hash, now);
      ToAppend(gitPath, [show], ResetRun(repo, hash, now).0);
      r := if err.Some? then Fail(failure + err.value) else Pass;
    }

    /** createBranch: `checkoutLocalBranch(name)`. */
    method CreateBranch(name: string) returns (r: Outcome)
      modifies repo
      ensures repo.repos == old(repo.repos)
      ensures repo.log == old(repo.log) + [Issued(gitPath, CheckoutLocalBranch(name))]
      ensures r == if CheckoutLocalBranch(name) in repo.failing
        then Fail("Failed to create branch " + name + ": Error: " + repo.failing[CheckoutLocalBranch(name)])
        else Pass
    {
      var ok := repo.Run(gitPath, CheckoutLocalBranch(name));
      if ok.Fail? {
        return Fail("Failed to create branch " + name + ": Error: " + ok.error);
      }
      r := Pass;
    }

    /** switchBranch: `checkout(name)`. */
    method SwitchBranch(name: string) returns (r: Outcome)
      modifies repo
      ensures repo.repos == old(repo.repos)
      ensures repo.log == old(repo.log) + [Issued(gitPath, Checkout(name))]
      ensures r == if Checkout(name) in repo.failing
        then Fail("Failed to switch to branch " + name + ": Error: " + repo.failing[Checkout(name)])
        else Pass
    {
      var ok := repo.Run(gitPath, Checkout(name));
      if ok.Fail? {
        return Fail("Failed to switch to branch " + name + ": Error: " + ok.error);
      }
      r := Pass;
    }

    /** getCurrentBranch: `status.current || 'unknown'`, and `'unknown'` when status throws. */
    method GetCurrentBranch() returns (branch: string)
      modifies repo
      ensures repo.repos == old(repo.repos) && repo.log == old(repo.log) + [Issued(gitPath, Status)]
      ensures branch != []
      ensures var current := repo.StatusOf(gitPath).current;
        branch == if Status !in repo.failing && current.Some? && current.value != [] then current.value else "unknown"
    {
      var ok := repo.Run(gitPath, Status);
      if ok.Fail? {
        return "unknown";
      }
      var current := repo.StatusOf(gitPath).current;
      if current.Some? && current.value != [] {
        branch := current.value;
      } else {
        branch := "unknown";
      }
    }

    /** getBranches: `branchLocal().all`, `[]` when it throws. */
    method GetBranches() returns (branches: seq<string>)
      modifies repo
      ensures repo.repos == old(repo.repos) && repo.log == old(repo.log) + [Issued(gitPath, BranchLocal)]
      ensures branches == if BranchLocal in repo.failing then [] else repo.BranchesOf(gitPath)
    {
      var ok := repo.Run(gitPath, BranchLocal);
      if ok.Fail? {
        return [];
      }
      branches := repo.BranchesOf(gitPath);
    }

    /** getStatus: the status, null when it throws. */
    method GetStatus() returns (status: Option<StatusSummary>)
      modifies repo
      ensures repo.repos == old(repo.repos) && repo.log == old(repo.log) + [Issued(gitPath, Status)]
      ensures status == if Status in repo.failing then None else Some(repo.StatusOf(gitPath))
    {
      var ok := repo.Run(gitPath, Status);
      if ok.Fail? {
        return None;
      }
      status := Some(repo.StatusOf(gitPath));
    }

    /** setRepositoryPath: `repoPath` first, then a new handle, then `modsPath` in the
        settings store. On a missing folder `simpleGit` throws after `repoPath` has changed,
        so the old handle stays and `modsPath` is not stored. */
    method SetRepositoryPath(path: string) returns (r: Outcome)
      modifies this
      ensures repoPath == path
      ensures path !in repo.folders ==>
        r == Fail(ConstructError) && gitPath == old(gitPath) && storedModsPath == old(storedModsPath)
      ensures path in repo.folders ==> r == Pass && gitPath == path && storedModsPath == Some(path)
    {
      repoPath := path;
      if path !in repo.folders {
        return Fail(ConstructError);
      }
      gitPath := path;
      storedModsPath := Some(path);
      r := Pass;
    }

    function GetRepositoryPath(): (r: string)
      reads this
      ensures r == repoPath
    {
      repoPath
    }
  }

  // ---------------------------------------------------------------- properties

  /** A folder that already is a repository is never re-initialized or committed to; a
      new one gets exactly one commit, after `init`, when nothing throws. */
  lemma SetupCommitsOnlyFresh(repo: Repository)
    ensures forall c :: c in SetupSteps(repo, true).0 ==> !c.Init? && !c.Commit?
    ensures CheckIsRepo !in repo.failing && Init !in repo.failing
      && Add(".") !in repo.failing && Commit(SetupCommitMessage) !in repo.failing
      ==> SetupSteps(repo, false) == ([CheckIsRepo, Init, WriteIgnore, Add("."), Commit(SetupCommitMessage)], true)
  {
    if CheckIsRepo !in repo.failing && Init !in repo.failing
      && Add(".") !in repo.failing && Commit(SetupCommitMessage) !in repo.failing {
      var commit := [Add("."), Commit(SetupCommitMessage)];
      RunsAll(repo.failing, commit);
      assert [CheckIsRepo, Init, WriteIgnore] + commit
        == [CheckIsRepo, Init, WriteIgnore, Add("."), Commit(SetupCommitMessage)];
    }
  }

  /** A write of the `.gitignore` that fails does not stop the setup. */
  lemma IgnoreFailureTolerated(repo: Repository)
    requires CheckIsRepo !in repo.failing && Init !in repo.failing
    ensures Add(".") in SetupSteps(repo, false).0
  {
    var commit := [Add("."), Commit(SetupCommitMessage)];
    var a := Attempted(repo.failing, commit);
    assert a[0] == Add(".");
    assert (SetupSteps(repo, false).0)[3] == Add(".");
  }

  /** ensureGitConfig writes a key only when it was unset, and writes every unset key when
      no write throws. */
  lemma ConfigOnlyWhenUnset(repo: Repository)
    ensures AddConfig("user.name", DefaultUserName) in ConfigSteps(repo) <==> Unset(repo, "user.name")
    ensures AddConfig("user.email", DefaultUserEmail) in ConfigSteps(repo) ==> Unset(repo, "user.email")
    ensures AddConfig("user.name", DefaultUserName) !in repo.failing && Unset(repo, "user.email")
      ==> AddConfig("user.email", DefaultUserEmail) in ConfigSteps(repo)
  {
    var name := AddConfig("user.name", DefaultUserName);
    var email := AddConfig("user.email", DefaultUserEmail);
    var names := KeySteps(repo, "user.name", DefaultUserName);
    var emails := KeySteps(repo, "user.email", DefaultUserEmail);
    assert name != email && name != ConfigGet("user.email") && name != ConfigGet("user.name");
    assert email != ConfigGet("user.email") && email != ConfigGet("user.name");
    assert name !in emails && email !in names;
  }

  /** createSnapshot commits exactly when staging and the status succeeded and the status
      listed files: a clean tree is never committed. */
  lemma SnapshotCommitsOnlyChanges(failing: map<Command, string>, clean: bool, message: string)
    ensures Commit(message) in Attempted(failing, SnapshotSteps(clean, message))
      <==> !clean && Add(".") !in failing && Status !in failing
  {
    var head := [Add("."), Status];
    var tail: seq<Command> := if clean then [] else [Commit(message)];
    AttemptedAppend(failing, head, tail);
    AttemptedStops(failing, head);
    FirstErrorNone(failing, head);
    assert Commit(message) !in head;
    if !clean {
      assert Attempted(failing, tail) == tail;
    }
  }

  /** The hard reset runs only after the commit was found and the backup branch was made;
      `master` is tried only when `main` fails. */
  lemma RollbackGuarded(repo: Repository, hash: string, now: nat)
    ensures var run := RollbackRun(repo, hash, now);
      Reset(["--hard", hash]) in run.0 ==>
        && Show(StatArgs(hash)) !in repo.failing && repo.ShowOf(StatArgs(hash)) != []
        && run.0[1] == CheckoutLocalBranch(BackupBranch(now))
        && CheckoutLocalBranch(BackupBranch(now)) !in repo.failing
        && run.0[|run.0| - 1] == Reset(["--hard", hash])
    ensures var run := RollbackRun(repo, hash, now);
      Checkout("master") in run.0 <==> (|run.0| > 2 && Checkout("main") in repo.failing)
    ensures RollbackRun(repo, hash, now).1.None? ==> Reset(["--hard", hash]) in RollbackRun(repo, hash, now).0
  {
  }
}
