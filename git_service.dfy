/** The version-control service src/main/main.ts wires up (src/services/GitService.ts).
    It holds a simple-git handle, created lazily and re-created whenever a call names a
    different repository path. Mutating calls never throw: they report failure in their
    reply. Read-only calls fall back to `[]`, null or `'main'`. */
module GitService {
  import opened Wrappers
  import opened Text
  import opened Types
  import opened GitTool

  // ---------------------------------------------------------------- changed files

  /** A line of `git show --name-only --pretty=format:` output that names a file: not
      blank, and not a `commit` header (tested before trimming). */
  predicate Kept(line: string) {
    Trim(line) != [] && !StartsWith(line, "commit")
  }

  /** The kept lines, trimmed, in their original order. */
  function KeptLines(lines: seq<string>): (r: seq<string>)
    ensures |r| <= |lines|
    ensures forall f :: f in r ==> f != [] && Trim(f) == f
  {
    if lines == [] then []
    else
      var rest := KeptLines(lines[1..]);
      if Kept(lines[0]) then
        TrimIdempotent(lines[0]);
        [Trim(lines[0])] + rest
      else rest
  }

  /** getChangedFiles: `diff.split('\n').filter(...).map(trim)`. */
  function ChangedFiles(diff: string): (r: seq<string>)
    ensures forall f :: f in r ==> f != [] && Trim(f) == f
  {
    KeptLines(Split(diff, '\n'))
  }

  /** Filtering works line by line: the files of two runs of lines are the files of
      each, in order. */
  lemma {:induction false} KeptLinesAppend(a: seq<string>, b: seq<string>)
    ensures KeptLines(a + b) == KeptLines(a) + KeptLines(b)
  {
    if a != [] {
      assert (a + b)[0] == a[0];
      assert (a + b)[1..] == a[1..] + b;
      KeptLinesAppend(a[1..], b);
      var head := if Kept(a[0]) then [Trim(a[0])] else [];
      assert KeptLines(a) == head + KeptLines(a[1..]);
      assert KeptLines(a + b) == head + KeptLines(a[1..] + b);
      assert KeptLines(a + b) == head + (KeptLines(a[1..]) + KeptLines(b));
    } else {
      assert a + b == b;
    }
  }

  /** A file name as git lists it: one line, trimmed, not empty, not starting `commit`. */
  predicate Listable(f: string) {
    f != [] && Trim(f) == f && '\n' !in f && !StartsWith(f, "commit")
  }

  /** Names listed one per line are read back exactly, in order. */
  lemma {:induction false} ChangedFilesRoundTrip(files: seq<string>)
    requires forall f :: f in files ==> Listable(f)
    ensures ChangedFiles(Join(files, '\n')) == files
  {
    if files == [] {
      assert Split("", '\n') == [""];
    } else {
      var f := files[0];
      assert f in files;
      SplitNoSeparator(f, '\n');
      assert Kept(f);
      assert KeptLines([f]) == [f] by {
        assert [f][1..] == [];
      }
      if |files| == 1 {
        assert Join(files, '\n') == f;
      } else {
        var rest := files[1..];
        assert Join(files, '\n') == f + ['\n'] + Join(rest, '\n');
        SplitAppend(f, Join(rest, '\n'), '\n');
        assert forall g :: g in rest ==> g in files;
        ChangedFilesRoundTrip(rest);
        KeptLinesAppend([f], Split(Join(rest, '\n'), '\n'));
        assert files == [f] + rest;
      }
    }
  }

  // ---------------------------------------------------------------- replies

  /** `{ success, message }`. */
  datatype Reply = Reply(success: bool, message: string)

  /** `{ success, hash?, message }` of commitChanges. */
  datatype CommitReply = CommitReply(success: bool, hash: Option<string>, message: string)

  const InitialCommitMessage := "Initial commit: Add gitignore for Sims 4 mods"

  /** What initializeRepository does on a path that is not yet a repository: init, the
      `.gitignore`, staging it, and the one commit. */
  const FreshInitSteps: seq<Command> := [Init, WriteIgnore, Add(".gitignore"), Commit(InitialCommitMessage)]

  /** The commands initializeRepository issues when every one succeeds. */
  function InitSteps(isRepo: bool): seq<Command> {
    [CheckIsRepo] + (if isRepo then [] else FreshInitSteps)
  }

  /** What commitChanges does once status has listed changed files. */
  function StageAndCommit(message: string): seq<Command> {
    [Add("."), Commit(message)]
  }

  /** The commands commitChanges issues when every one succeeds: status first, and
      staging and committing only when it lists changed files. */
  function CommitSteps(clean: bool, message: string): seq<Command> {
    [Status] + (if clean then [] else StageAndCommit(message))
  }

  /** The commands revertToCommit issues when every one succeeds: the backup branch
      first, then `main`, then the hard reset. */
  function RevertSteps(backup: string, hash: string): seq<Command> {
    [CheckoutLocalBranch(backup), Checkout("main"), Reset(["--hard", hash])]
  }

  /** `hash.substring(0, 7)`. */
  function ShortHash(hash: string): (r: string)
    ensures |r| <= 7 && r <= hash
    ensures |hash| >= 7 ==> |r| == 7
  {
    if |hash| <= 7 then hash else hash[..7]
  }

  /** The arguments getChangedFiles passes to `show`. */
  function ShowArgs(hash: string): seq<string> {
    ["--name-only", "--pretty=format:", hash]
  }

  /** The files getChangedFiles reports for a commit: `[]` when `show` throws. */
  function FilesOf(repo: Repository, hash: string): (r: seq<string>)
    ensures forall f :: f in r ==> f != [] && Trim(f) == f
  {
    if Show(ShowArgs(hash)) in repo.failing then [] else ChangedFiles(repo.ShowOf(ShowArgs(hash)))
  }

  /** One history entry: the author as `name <email>`. */
  function HistoryCommit(repo: Repository, e: LogEntry): (c: FileCommit)
    ensures c.hash == e.hash && c.message == e.message && c.date == e.date
    ensures c.author == e.authorName + " <" + e.authorEmail + ">"
  {
    FileCommit(e.hash, e.message, e.date, e.authorName + " <" + e.authorEmail + ">", FilesOf(repo, e.hash))
  }

  /** The `show` calls getHistory makes, one per entry, in log order. */
  function ShowsFor(entries: seq<LogEntry>): (r: seq<Command>)
    ensures |r| == |entries|
  {
    if entries == [] then []
    else ShowsFor(entries[..|entries| - 1]) + [Show(ShowArgs(entries[|entries| - 1].hash))]
  }

  /** The commands and the result of getHistory on a handle for `path`. */
  method HistoryRun(repo: Repository, path: string, limit: int) returns (commits: seq<FileCommit>)
    modifies repo
    ensures repo.repos == old(repo.repos)
    ensures Log(limit) in repo.failing ==> commits == [] && repo.log == old(repo.log) + [Issued(path, Log(limit))]
    ensures Log(limit) !in repo.failing ==>
      var entries := Newest(repo.HistoryOf(path), limit);
      && |commits| == |entries|
      && (forall i :: 0 <= i < |commits| ==> commits[i] == HistoryCommit(repo, entries[i]))
      && repo.log == old(repo.log) + To(path, [Log(limit)] + ShowsFor(entries))
    ensures limit >= 0 ==> |commits| <= limit
  {
    var ok := repo.Run(path, Log(limit));
    if ok.Fail? {
      return [];
    }
    var entries := Newest(repo.HistoryOf(path), limit);
    commits := CollectHistory(repo, path, entries);
    ToAppend(path, [Log(limit)], ShowsFor(entries));
  }

  /** The commands and the reply of initializeRepository on a handle for `path`. */
  method InitRun(repo: Repository, path: string) returns (r: Reply)
    modifies repo
    ensures var steps := InitSteps(path in old(repo.repos));
      && repo.log == old(repo.log) + To(path, Attempted(repo.failing, steps))
      && r == match FirstError(repo.failing, steps)
           case None => Reply(true, if path in old(repo.repos) then "Git repository already exists"
                                    else "Git repository initialized successfully")
           case Some(e) => Reply(false, "Failed to initialize git repository: " + e)
  {
    // checkIsRepo answers from the repositories as they are before the call, and the
    // fresh steps run only after it answered false: exactly the list InitSteps gives.
    var isRepo := path in repo.repos;
    var err := RunSteps(repo, path, InitSteps(isRepo));
    match err
    case None =>
      r := Reply(true, if isRepo then "Git repository already exists" else "Git repository initialized successfully");
    case Some(e) =>
      r := Reply(false, "Failed to initialize git repository: " + e);
  }

  /** The commands and the reply of commitChanges on a handle for `path`. */
  method CommitRun(repo: Repository, path: string, message: string) returns (r: CommitReply)
    modifies repo
    ensures repo.repos == old(repo.repos)
    ensures var clean := |repo.StatusOf(path).files| == 0; var steps := CommitSteps(clean, message);
      && repo.log == old(repo.log) + To(path, Attempted(repo.failing, steps))
      && r == match FirstError(repo.failing, steps)
           case None =>
             if clean then CommitReply(true, None, "No changes to commit")
             else CommitReply(true, Some(repo.commitHash),
                    "Committed changes: " + NatToString(repo.commitChanges) + " files changed")
           case Some(e) => CommitReply(false, None, "Failed to commit changes: " + e)
  {
    ghost var steps := CommitSteps(|repo.StatusOf(path).files| == 0, message);
    var ok := repo.Run(path, Status);
    if ok.Fail? {
      assert Attempted(repo.failing, steps) == [Status];
      return CommitReply(false, None, "Failed to commit changes: " + ok.error);
    }
    if |repo.StatusOf(path).files| == 0 {
      assert Attempted(repo.failing, steps) == [Status];
      return CommitReply(true, None, "No changes to commit");
    }
    var err := RunSteps(repo, path, StageAndCommit(message));
    assert Attempted(repo.failing, steps) == [Status] + Attempted(repo.failing, StageAndCommit(message));
    ToAppend(path, [Status], Attempted(repo.failing, StageAndCommit(message)));
    match err
    case None =>
      r := CommitReply(true, Some(repo.commitHash),
        "Committed changes: " + NatToString(repo.commitChanges) + " files changed");
    case Some(e) =>
      r := CommitReply(false, None, "Failed to commit changes: " + e);
  }

  /** `show --name-only --pretty=format: hash` through a handle bound to `path`, read as
      the list of changed files; `[]` when it throws. */
  method ShowFiles(repo: Repository, path: string, hash: string) returns (files: seq<string>)
    modifies repo
    ensures repo.repos == old(repo.repos)
    ensures files == FilesOf(repo, hash)
    ensures repo.log == old(repo.log) + [Issued(path, Show(ShowArgs(hash)))]
  {
    var ok := repo.Run(path, Show(ShowArgs(hash)));
    if ok.Fail? {
      return [];
    }
    files := ChangedFiles(repo.ShowOf(ShowArgs(hash)));
  }

  /** The loop of getHistory: each entry in turn, with the files its `show` lists. */
  method CollectHistory(repo: Repository, path: string, entries: seq<LogEntry>) returns (commits: seq<FileCommit>)
    modifies repo
    ensures repo.repos == old(repo.repos)
    ensures |commits| == |entries|
    ensures forall i :: 0 <= i < |commits| ==> commits[i] == HistoryCommit(repo, entries[i])
    ensures repo.log == old(repo.log) + To(path, ShowsFor(entries))
  {
    commits := [];
    var i := 0;
    while i < |entries|
      invariant 0 <= i <= |entries|
      invariant |commits| == i
      invariant forall j :: 0 <= j < i ==> commits[j] == HistoryCommit(repo, entries[j])
      invariant repo.log == old(repo.log) + To(path, ShowsFor(entries[..i]))
      invariant repo.repos == old(repo.repos)
    {
      var e := entries[i];
      var files := ShowFiles(repo, path, e.hash);
      commits := commits + [FileCommit(e.hash, e.message, e.date, e.authorName + " <" + e.authorEmail + ">", files)];
      assert entries[..i + 1][..i] == entries[..i];
      ToAppend(path, ShowsFor(entries[..i]), [Show(ShowArgs(e.hash))]);
      i := i + 1;
    }
    assert entries[..i] == entries;
  }

  /** Whether the rebind at the head of each call gets through: the handle is kept
      because it exists and was asked for under `path`, or `simpleGit(path)` finds the folder. */
  predicate Binds(handle: Option<string>, repoPath: string, folders: set<string>, path: string) {
    (handle.Some? && repoPath == path) || path in folders
  }

  /** The folder of the handle after that rebind. When `simpleGit` throws, `this.git` keeps
      its old value, which may be a handle for another folder or none. */
  function Rebound(handle: Option<string>, repoPath: string, folders: set<string>, path: string): Option<string> {
    if handle.Some? && repoPath == path then handle
    else if path in folders then Some(path)
    else handle
  }

  /** Once a call for a missing folder has thrown, a second call for the same folder
      keeps the old handle and so reaches the folder of the earlier calls. */
  lemma StaleHandleReused(previous: string, repoPath: string, folders: set<string>, path: string)
    requires path !in folders && previous != path
    ensures !Binds(None, repoPath, folders, path)
    ensures var h := Rebound(Some(previous), repoPath, folders, path);
      && h == Some(previous)
      && Binds(h, path, folders, path) && Rebound(h, path, folders, path) == Some(previous)
  {
  }

  class Service {
    /** The folder the `git` handle was created for; `None` while `git` is null. */
    var handle: Option<string>
    /** The path of the last call: `repoPath`, set before the handle is created. */
    var repoPath: string
    /** The repositories and folders the handles reach. */
    const repo: Repository

    constructor(repo: Repository)
      ensures handle == None && repoPath == "" && this.repo == repo
    {
      handle := None;
      repoPath := "";
      this.repo := repo;
    }

    /** `if (!this.git || this.repoPath !== path)`: a new handle only when there is none or
        the last call asked for another path. `repoPath` is
        set first, so when the folder is missing the old handle stays under the new path;
        a handle for another folder is then used only after such a failure. */
    method Rebind(path: string) returns (ok: bool)
      modifies this
      ensures repoPath == path
      ensures ok == Binds(old(handle), old(repoPath), repo.folders, path)
      ensures handle == Rebound(old(handle), old(repoPath), repo.folders, path)
      ensures ok ==> handle.Some?
      ensures ok && handle.value != path ==> old(repoPath) == path && handle == old(handle)
    {
      if handle.None? || repoPath != path {
        repoPath := path;
        if path !in repo.folders {
          return false;
        }
        handle := Some(path);
      }
      ok := true;
    }

    /** initializeRepository: always a fresh handle for `path`, or the constructor's error
        when the folder is missing. On an existing repository only the check runs;
        otherwise init, the `.gitignore`, and exactly one commit, stopping at the first
        command that throws. */
    method InitializeRepository(path: string) returns (r: Reply)
      modifies this, repo
      ensures repoPath == path
      ensures path !in repo.folders ==>
        && handle == old(handle) && repo.log == old(repo.log) && repo.repos == old(repo.repos)
        && r == Reply(false, "Failed to initialize git repository: " + ConstructError)
      ensures path in repo.folders ==> (handle == Some(path) &&
        var steps := InitSteps(path in old(repo.repos));
        && repo.log == old(repo.log) + To(path, Attempted(repo.failing, steps))
        && r == match FirstError(repo.failing, steps)
             case None => Reply(true, if path in old(repo.repos) then "Git repository already exists"
                                      else "Git repository initialized successfully")
             case Some(e) => Reply(false, "Failed to initialize git repository: " + e))
    {
      repoPath := path;
      if path !in repo.folders {
        return Reply(false, "Failed to initialize git repository: " + ConstructError);
      }
      handle := Some(path);
      r := InitRun(repo, path);
    }

    /** commitChanges: status before staging; a clean tree gives success without a hash
        and without a commit; otherwise stage everything and commit, reporting the hash. */
    method CommitChanges(path: string, message: string) returns (r: CommitReply)
      modifies this, repo
      ensures repoPath == path && handle == Rebound(old(handle), old(repoPath), repo.folders, path)
      ensures repo.repos == old(repo.repos)
      ensures !Binds(old(handle), old(repoPath), repo.folders, path) ==>
        repo.log == old(repo.log) && r == CommitReply(false, None, "Failed to commit changes: " + ConstructError)
      ensures Binds(old(handle), old(repoPath), repo.folders, path) ==> (handle.Some? &&
        var at := handle.value;
        var clean := |repo.StatusOf(at).files| == 0; var steps := CommitSteps(clean, message);
        && repo.log == old(repo.log) + To(at, Attempted(repo.failing, steps))
        && r == match FirstError(repo.failing, steps)
             case None =>
               if clean then CommitReply(true, None, "No changes to commit")
               else CommitReply(true, Some(repo.commitHash),
                      "Committed changes: " + NatToString(repo.commitChanges) + " files changed")
             case Some(e) => CommitReply(false, None, "Failed to commit changes: " + e))
    {
      var bound := Rebind(path);
      if !bound {
        return CommitReply(false, None, "Failed to commit changes: " + ConstructError);
      }
      r := CommitRun(repo, handle.value, message);
    }

    /** getChangedFiles: `[]` without a handle or when `show` throws; otherwise `show`
        through the handle, whatever folder it was made for. */
    method GetChangedFiles(hash: string) returns (files: seq<string>)
      modifies repo
      ensures repo.repos == old(repo.repos)
      ensures handle.None? ==> files == [] && repo.log == old(repo.log)
      ensures handle.Some? ==> (files == FilesOf(repo, hash)
        && repo.log == old(repo.log) + [Issued(handle.value, Show(ShowArgs(hash)))])
    {
      if handle.None? {
        return [];
      }
      files := ShowFiles(repo, handle.value, hash);
    }

    /** getHistory: the log, cut at `limit`, each entry with its changed files, in log
        order; `[]` when `log` throws or the handle cannot be made. */
    method GetHistory(path: string, limit: int) returns (commits: seq<FileCommit>)
      modifies this, repo
      ensures repoPath == path && handle == Rebound(old(handle), old(repoPath), repo.folders, path)
      ensures repo.repos == old(repo.repos)
      ensures limit >= 0 ==> |commits| <= limit
      ensures !Binds(old(handle), old(repoPath), repo.folders, path) ==> commits == [] && repo.log == old(repo.log)
      ensures Binds(old(handle), old(repoPath), repo.folders, path) ==> (handle.Some? &&
        var at := handle.value;
        && (Log(limit) in repo.failing ==> commits == [] && repo.log == old(repo.log) + [Issued(at, Log(limit))])
        && (Log(limit) !in repo.failing ==>
             var entries := Newest(repo.HistoryOf(at), limit);
             && |commits| == |entries|
             && (forall i :: 0 <= i < |commits| ==> commits[i] == HistoryCommit(repo, entries[i]))
             && repo.log == old(repo.log) + To(at, [Log(limit)] + ShowsFor(entries))))
    {
      var bound := Rebind(path);
      if !bound {
        return [];
      }
      commits := HistoryRun(repo, handle.value, limit);
    }

    /** revertToCommit: backup branch, then `main` (no fallback), then the hard reset;
        the reply names the backup branch and the first seven characters of the hash.
        `now` stands for `Date.now()`. */
    method RevertToCommit(path: string, hash: string, now: nat) returns (r: Reply)
      modifies this, repo
      ensures repoPath == path && handle == Rebound(old(handle), old(repoPath), repo.folders, path)
      ensures repo.repos == old(repo.repos)
      ensures !Binds(old(handle), old(repoPath), repo.folders, path) ==>
        repo.log == old(repo.log) && r == Reply(false, "Failed to revert to commit: " + ConstructError)
      ensures Binds(old(handle), old(repoPath), repo.folders, path) ==> (handle.Some? &&
        var steps := RevertSteps(BackupBranch(now), hash);
        && repo.log == old(repo.log) + To(handle.value, Attempted(repo.failing, steps))
        && r == match FirstError(repo.failing, steps)
             case None => Reply(true, "Reverted to commit " + ShortHash(hash) + ". Backup created as " + BackupBranch(now))
             case Some(e) => Reply(false, "Failed to revert to commit: " + e))
    {
      var bound := Rebind(path);
      if !bound {
        return Reply(false, "Failed to revert to commit: " + ConstructError);
      }
      var backup := BackupBranch(now);
      var err := RunSteps(repo, handle.value, RevertSteps(backup, hash));
      match err
      case None =>
        r := Reply(true, "Reverted to commit " + ShortHash(hash) + ". Backup created as " + backup);
      case Some(e) =>
        r := Reply(false, "Failed to revert to commit: " + e);
    }

    /** getCurrentBranch: `status.current || 'main'`, and `'main'` when status or the
        handle throws. */
    method GetCurrentBranch(path: string) returns (branch: string)
      modifies this, repo
      ensures repoPath == path && handle == Rebound(old(handle), old(repoPath), repo.folders, path)
      ensures repo.repos == old(repo.repos)
      ensures branch != []
      ensures !Binds(old(handle), old(repoPath), repo.folders, path) ==> branch == "main" && repo.log == old(repo.log)
      ensures Binds(old(handle), old(repoPath), repo.folders, path) ==> (handle.Some? &&
        var current := repo.StatusOf(handle.value).current;
        && repo.log == old(repo.log) + [Issued(handle.value, Status)]
        && branch == if Status !in repo.failing && current.Some? && current.value != [] then current.value else "main")
    {
      var bound := Rebind(path);
      if !bound {
        return "main";
      }
      var ok := repo.Run(handle.value, Status);
      if ok.Fail? {
        return "main";
      }
      var current := repo.StatusOf(handle.value).current;
      if current.Some? && current.value != [] {
        branch := current.value;
      } else {
        branch := "main";
      }
    }

    method CreateBranch(path: string, name: string) returns (r: Reply)
      modifies this, repo
      ensures repoPath == path && handle == Rebound(old(handle), old(repoPath), repo.folders, path)
      ensures repo.repos == old(repo.repos)
      ensures !Binds(old(handle), old(repoPath), repo.folders, path) ==>
        repo.log == old(repo.log) && r == Reply(false, "Failed to create branch: " + ConstructError)
      ensures Binds(old(handle), old(repoPath), repo.folders, path) ==> (handle.Some?
        && repo.log == old(repo.log) + [Issued(handle.value, CheckoutLocalBranch(name))]
        && r == if CheckoutLocalBranch(name) in repo.failing
             then Reply(false, "Failed to create branch: " + repo.failing[CheckoutLocalBranch(name)])
             else Reply(true, "Created and switched to branch: " + name))
    {
      var bound := Rebind(path);
      if !bound {
        return Reply(false, "Failed to create branch: " + ConstructError);
      }
      var ok := repo.Run(handle.value, CheckoutLocalBranch(name));
      if ok.Fail? {
        return Reply(false, "Failed to create branch: " + ok.error);
      }
      r := Reply(true, "Created and switched to branch: " + name);
    }

    method SwitchBranch(path: string, name: string) returns (r: Reply)
      modifies this, repo
      ensures repoPath == path && handle == Rebound(old(handle), old(repoPath), repo.folders, path)
      ensures repo.repos == old(repo.repos)
      ensures !Binds(old(handle), old(repoPath), repo.folders, path) ==>
        repo.log == old(repo.log) && r == Reply(false, "Failed to switch branch: " + ConstructError)
      ensures Binds(old(handle), old(repoPath), repo.folders, path) ==> (handle.Some?
        && repo.log == old(repo.log) + [Issued(handle.value, Checkout(name))]
        && r == if Checkout(name) in repo.failing
             then Reply(false, "Failed to switch branch: " + repo.failing[Checkout(name)])
             else Reply(true, "Switched to branch: " + name))
    {
      var bound := Rebind(path);
      if !bound {
        return Reply(false, "Failed to switch branch: " + ConstructError);
      }
      var ok := repo.Run(handle.value, Checkout(name));
      if ok.Fail? {
        return Reply(false, "Failed to switch branch: " + ok.error);
      }
      r := Reply(true, "Switched to branch: " + name);
    }

    method GetBranches(path: string) returns (branches: seq<string>)
      modifies this, repo
      ensures repoPath == path && handle == Rebound(old(handle), old(repoPath), repo.folders, path)
      ensures repo.repos == old(repo.repos)
      ensures !Binds(old(handle), old(repoPath), repo.folders, path) ==> branches == [] && repo.log == old(repo.log)
      ensures Binds(old(handle), old(repoPath), repo.folders, path) ==> (handle.Some?
        && repo.log == old(repo.log) + [Issued(handle.value, BranchLocal)]
        && branches == if BranchLocal in repo.failing then [] else repo.BranchesOf(handle.value))
    {
      var bound := Rebind(path);
      if !bound {
        return [];
      }
      var ok := repo.Run(handle.value, BranchLocal);
      if ok.Fail? {
        return [];
      }
      branches := repo.BranchesOf(handle.value);
    }

    method GetStatus(path: string) returns (status: Option<StatusSummary>)
      modifies this, repo
      ensures repoPath == path && handle == Rebound(old(handle), old(repoPath), repo.folders, path)
      ensures repo.repos == old(repo.repos)
      ensures !Binds(old(handle), old(repoPath), repo.folders, path) ==> status == None && repo.log == old(repo.log)
      ensures Binds(old(handle), old(repoPath), repo.folders, path) ==> (handle.Some?
        && repo.log == old(repo.log) + [Issued(handle.value, Status)]
        && status == if Status in repo.failing then None else Some(repo.StatusOf(handle.value)))
    {
      var bound := Rebind(path);
      if !bound {
        return None;
      }
      var ok := repo.Run(handle.value, Status);
      if ok.Fail? {
        return None;
      }
      status := Some(repo.StatusOf(handle.value));
    }
  }

  /** On a repository that already exists initializeRepository makes no commit; on a new
      one it makes exactly one, after `init`, when nothing throws. */
  lemma InitCommitsOnce(isRepo: bool)
    ensures isRepo ==> forall c :: c in InitSteps(isRepo) ==> !c.Commit? && !c.Init?
    ensures !isRepo ==> var s := InitSteps(isRepo);
      s[|s| - 1].Commit? && s[1] == Init && forall i :: 0 <= i < |s| - 1 ==> !s[i].Commit?
  {
  }

  /** A clean working tree is never staged or committed; otherwise the one commit, with
      the given message, comes last, after the status check. */
  lemma CommitOnlyWithChanges(clean: bool, message: string)
    ensures clean ==> forall c :: c in CommitSteps(clean, message) ==> !c.Commit? && !c.Add?
    ensures CommitSteps(clean, message)[0] == Status
    ensures !clean ==> var s := CommitSteps(clean, message);
      s[|s| - 1] == Commit(message) && forall i :: 0 <= i < |s| - 1 ==> !s[i].Commit?
  {
  }
}
