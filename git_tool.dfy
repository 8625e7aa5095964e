/** The git repositories the two version-control services drive through simple-git,
    seen from outside: which commands were issued to which repository, in order, and
    what each command answered. Git's own behaviour is not modelled: the answers come
    from fixed tables, except that `init` makes `checkIsRepo` answer true afterwards. */
module GitTool {
  import opened Wrappers
  import opened Text

  /** One simple-git call, or the write of a `.gitignore` file into the repository. */
  datatype Command =
    | CheckIsRepo
    | Init
    | WriteIgnore
    | Add(pathspec: string)
    | Commit(message: string)
    | Status
    | Log(maxCount: int)
    | Show(args: seq<string>)
    | CheckoutLocalBranch(name: string)
    | Checkout(name: string)
    | Reset(args: seq<string>)
    | BranchLocal
    | ConfigGet(key: string)
    | AddConfig(key: string, value: string)

  /** A command as issued through a handle bound to the repository at `repo`. */
  datatype Issued = Issued(repo: string, cmd: Command)

  /** One entry of `log.all`. */
  datatype LogEntry = LogEntry(hash: string, message: string, date: int, authorName: string, authorEmail: string)

  /** The parts of a status result the services read: `files` and `current`. */
  datatype StatusSummary = StatusSummary(files: seq<string>, current: Option<string>)

  /** The commands of `steps`, all addressed to `repo`. */
  function To(repo: string, steps: seq<Command>): (r: seq<Issued>)
    ensures |r| == |steps|
  {
    if steps == [] then [] else [Issued(repo, steps[0])] + To(repo, steps[1..])
  }

  lemma {:induction false} ToAppend(repo: string, a: seq<Command>, b: seq<Command>)
    ensures To(repo, a + b) == To(repo, a) + To(repo, b)
  {
    if a == [] {
      assert a + b == b;
    } else {
      assert (a + b)[1..] == a[1..] + b;
      ToAppend(repo, a[1..], b);
    }
  }

  /** The message of the error `simpleGit(path)` throws when no folder exists at `path`. */
  const ConstructError := "Cannot use simple-git on a directory that does not exist"

  /** `backup-${Date.now()}`: the branch both services create before a hard reset. */
  function BackupBranch(now: nat): (r: string)
    ensures StartsWith(r, "backup-")
  {
    "backup-" + NatToString(now)
  }

  /** `--max-count=limit`: the first `limit` entries; git reads a negative count as none. */
  function Newest<T>(entries: seq<T>, limit: int): (r: seq<T>)
    ensures limit >= 0 ==> |r| <= limit
    ensures r <= entries
    ensures limit < 0 || limit >= |entries| ==> r == entries
  {
    if limit < 0 || limit >= |entries| then entries else entries[..limit]
  }

  class Repository {
    /** Every command issued so far, oldest first. */
    var log: seq<Issued>
    /** The paths at which `checkIsRepo` answers true. */
    var repos: set<string>
    /** The folders that exist: `simpleGit(path)` throws `ConstructError` for any other path. */
    const folders: set<string>
    /** The commands that throw, each with its error message. */
    const failing: map<Command, string>
    /** What `status()` answers for each repository; an unknown one is clean. */
    const statuses: map<string, StatusSummary>
    /** `log.all` of each repository, newest first. */
    const histories: map<string, seq<LogEntry>>
    /** What `show(args)` prints; an unknown argument list prints nothing. */
    const shown: map<seq<string>, string>
    /** `branchLocal().all` of each repository. */
    const branchLists: map<string, seq<string>>
    /** What `git config --get key` prints. */
    const config: map<string, string>
    /** The `commit` hash and `summary.changes` a successful commit reports. */
    const commitHash: string
    const commitChanges: nat

    constructor(repos: set<string>, folders: set<string>, failing: map<Command, string>, statuses: map<string, StatusSummary>,
                histories: map<string, seq<LogEntry>>, shown: map<seq<string>, string>,
                branchLists: map<string, seq<string>>, config: map<string, string>,
                commitHash: string, commitChanges: nat)
      ensures log == [] && this.repos == repos && this.folders == folders && this.failing == failing && this.statuses == statuses
      ensures this.histories == histories && this.shown == shown && this.branchLists == branchLists
      ensures this.config == config && this.commitHash == commitHash && this.commitChanges == commitChanges
    {
      log := [];
      this.repos := repos;
      this.folders := folders;
      this.failing := failing;
      this.statuses := statuses;
      this.histories := histories;
      this.shown := shown;
      this.branchLists := branchLists;
      this.config := config;
      this.commitHash := commitHash;
      this.commitChanges := commitChanges;
    }

    /** Issue `cmd` to the repository at `repo`: it is logged whether or not it throws. */
    method Run(repo: string, cmd: Command) returns (r: Outcome)
      modifies this
      ensures log == old(log) + [Issued(repo, cmd)]
      ensures r == if cmd in failing then Fail(failing[cmd]) else Pass
      ensures repos == if cmd == Init && r.Pass? then old(repos) + {repo} else old(repos)
    {
      log := log + [Issued(repo, cmd)];
      if cmd in failing {
        return Fail(failing[cmd]);
      }
      if cmd == Init {
        repos := repos + {repo};
      }
      r := Pass;
    }

    function StatusOf(repo: string): StatusSummary {
      if repo in statuses then statuses[repo] else StatusSummary([], None)
    }

    function HistoryOf(repo: string): seq<LogEntry> {
      if repo in histories then histories[repo] else []
    }

    function ShowOf(args: seq<string>): string {
      if args in shown then shown[args] else ""
    }

    function BranchesOf(repo: string): seq<string> {
      if repo in branchLists then branchLists[repo] else []
    }

    function ConfigOf(key: string): string {
      if key in config then config[key] else ""
    }
  }

  /** The commands of `steps` that run when each is awaited in turn and the first one
      that throws (one in `failing`) ends the sequence. */
  function Attempted(failing: map<Command, string>, steps: seq<Command>): (r: seq<Command>)
    ensures r <= steps
  {
    if steps == [] then []
    else if steps[0] in failing then [steps[0]]
    else [steps[0]] + Attempted(failing, steps[1..])
  }

  /** Every attempted command but the last succeeded; the sequence ends early only at a
      command that throws, and runs to the end when none does. */
  lemma {:induction false} AttemptedStops(failing: map<Command, string>, steps: seq<Command>)
    ensures var r := Attempted(failing, steps);
      && (forall i :: 0 <= i < |r| - 1 ==> r[i] !in failing)
      && (|r| < |steps| ==> r != [] && r[|r| - 1] in failing)
      && ((forall c :: c in steps ==> c !in failing) ==> r == steps)
  {
    AttemptedSucceedBeforeLast(failing, steps);
    AttemptedEndsAtThrow(failing, steps);
    AttemptedAll(failing, steps);
  }

  lemma {:induction false} AttemptedSucceedBeforeLast(failing: map<Command, string>, steps: seq<Command>)
    ensures forall i :: 0 <= i < |Attempted(failing, steps)| - 1 ==> Attempted(failing, steps)[i] !in failing
  {
    if steps != [] && steps[0] !in failing {
      AttemptedSucceedBeforeLast(failing, steps[1..]);
      var t := Attempted(failing, steps[1..]);
      var r := [steps[0]] + t;
      assert Attempted(failing, steps) == r;
      forall i | 0 <= i < |r| - 1 ensures r[i] !in failing {
        if i > 0 {
          assert r[i] == t[i - 1];
        } else {
          assert r[0] == steps[0];
        }
      }
    }
  }

  lemma {:induction false} AttemptedEndsAtThrow(failing: map<Command, string>, steps: seq<Command>)
    ensures var r := Attempted(failing, steps);
      |r| < |steps| ==> r != [] && r[|r| - 1] in failing
  {
    if steps != [] && steps[0] !in failing {
      AttemptedEndsAtThrow(failing, steps[1..]);
      var t := Attempted(failing, steps[1..]);
      var r := [steps[0]] + t;
      assert Attempted(failing, steps) == r;
      if t != [] {
        assert r[|r| - 1] == t[|t| - 1];
      }
    }
  }

  lemma {:induction false} AttemptedAll(failing: map<Command, string>, steps: seq<Command>)
    ensures (forall c :: c in steps ==> c !in failing) ==> Attempted(failing, steps) == steps
  {
    if steps != [] && forall c :: c in steps ==> c !in failing {
      assert steps[0] in steps;
      assert forall c :: c in steps[1..] ==> c in steps;
      AttemptedAll(failing, steps[1..]);
      assert steps == [steps[0]] + steps[1..];
    }
  }

  /** The message of the first command of `steps` that throws. */
  function FirstError(failing: map<Command, string>, steps: seq<Command>): (r: Option<string>)
    ensures r.Some? ==> r.value in failing.Values
  {
    if steps == [] then None
    else if steps[0] in failing then Some(failing[steps[0]])
    else FirstError(failing, steps[1..])
  }

  /** No error is reported exactly when no command of `steps` throws. */
  lemma {:induction false} FirstErrorNone(failing: map<Command, string>, steps: seq<Command>)
    ensures FirstError(failing, steps).None? <==> forall c :: c in steps ==> c !in failing
  {
    if steps != [] {
      FirstErrorNone(failing, steps[1..]);
      assert forall c :: c in steps <==> c == steps[0] || c in steps[1..];
    }
  }

  /** When the commands before index `k` succeed and the one at `k` throws, the commands
      up to `k` run and its error is the one reported. */
  lemma {:induction false} StopsAt(failing: map<Command, string>, steps: seq<Command>, k: nat)
    requires k < |steps| && steps[k] in failing
    requires forall i :: 0 <= i < k ==> steps[i] !in failing
    ensures Attempted(failing, steps) == steps[..k + 1]
    ensures FirstError(failing, steps) == Some(failing[steps[k]])
  {
    if k > 0 {
      StopsAt(failing, steps[1..], k - 1);
      assert steps[..k + 1] == [steps[0]] + steps[1..][..k];
    }
  }

  /** Awaiting `a` and then `b` runs the commands of `b` only when none of `a` threw, and
      reports the first error of `a`, else that of `b`. */
  lemma {:induction false} AttemptedAppend(failing: map<Command, string>, a: seq<Command>, b: seq<Command>)
    ensures Attempted(failing, a + b)
      == Attempted(failing, a) + (if FirstError(failing, a).None? then Attempted(failing, b) else [])
    ensures FirstError(failing, a + b)
      == if FirstError(failing, a).None? then FirstError(failing, b) else FirstError(failing, a)
  {
    AttemptedOfAppend(failing, a, b);
    FirstErrorOfAppend(failing, a, b);
  }

  lemma {:induction false} AttemptedOfAppend(failing: map<Command, string>, a: seq<Command>, b: seq<Command>)
    ensures Attempted(failing, a + b)
      == Attempted(failing, a) + (if FirstError(failing, a).None? then Attempted(failing, b) else [])
  {
    var ab := a + b;
    if a == [] {
      assert ab == b;
    } else {
      assert ab[0] == a[0];
      assert ab[1..] == a[1..] + b;
      if a[0] in failing {
        assert Attempted(failing, ab) == [a[0]] == Attempted(failing, a);
        assert FirstError(failing, a).Some?;
      } else {
        var x := Attempted(failing, a[1..]);
        var y := if FirstError(failing, a[1..]).None? then Attempted(failing, b) else [];
        calc {
          Attempted(failing, ab);
          [a[0]] + Attempted(failing, a[1..] + b);
          { AttemptedOfAppend(failing, a[1..], b); }
          [a[0]] + (x + y);
          ([a[0]] + x) + y;
        }
        assert FirstError(failing, a) == FirstError(failing, a[1..]);
      }
    }
  }

  lemma {:induction false} FirstErrorOfAppend(failing: map<Command, string>, a: seq<Command>, b: seq<Command>)
    ensures FirstError(failing, a + b)
      == if FirstError(failing, a).None? then FirstError(failing, b) else FirstError(failing, a)
  {
    if a == [] {
      assert a + b == b;
    } else {
      assert (a + b)[0] == a[0];
      assert (a + b)[1..] == a[1..] + b;
      if a[0] !in failing {
        FirstErrorOfAppend(failing, a[1..], b);
      }
    }
  }

  /** When no command of `steps` throws, all of them run and no error is reported. */
  lemma RunsAll(failing: map<Command, string>, steps: seq<Command>)
    requires forall i :: 0 <= i < |steps| ==> steps[i] !in failing
    ensures Attempted(failing, steps) == steps && FirstError(failing, steps) == None
  {
    assert forall c :: c in steps ==> c !in failing;
    AttemptedStops(failing, steps);
    FirstErrorNone(failing, steps);
  }

  /** Await each command of `steps` in turn against the repository at `path`; the first
      one that throws ends the sequence and its message is returned. */
  method RunSteps(repo: Repository, path: string, steps: seq<Command>) returns (err: Option<string>)
    modifies repo
    decreases |steps|
    ensures repo.log == old(repo.log) + To(path, Attempted(repo.failing, steps))
    ensures err == FirstError(repo.failing, steps)
    ensures repo.repos == if Init in Attempted(repo.failing, steps) && Init !in repo.failing
      then old(repo.repos) + {path} else old(repo.repos)
  {
    if steps == [] {
      return None;
    }
    var ok := repo.Run(path, steps[0]);
    assert To(path, [steps[0]]) == [Issued(path, steps[0])];
    if ok.Fail? {
      assert Attempted(repo.failing, steps) == [steps[0]];
      return Some(ok.error);
    }
    ghost var rest := Attempted(repo.failing, steps[1..]);
    ghost var mid := repo.log;
    err := RunSteps(repo, path, steps[1..]);
    assert Attempted(repo.failing, steps) == [steps[0]] + rest;
    ToAppend(path, [steps[0]], rest);
    assert repo.log == old(repo.log) + (To(path, [steps[0]]) + To(path, rest));
    assert Init in [steps[0]] + rest <==> steps[0] == Init || Init in rest;
  }
}
