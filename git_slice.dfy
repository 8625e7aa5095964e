/** The renderer's git slice (src/renderer/src/store/slices/gitSlice.ts): the commit
    history shown to the user and the current branch, changed in place by reducers and by
    the pending, fulfilled and rejected cases of its two thunks. */
module GitSlice {
  import opened Wrappers
  import opened Text
  import opened Types

  /** The two thunks: reading the history and rolling back to a commit. */
  datatype GitThunk = GetHistory | Rollback

  /** The fixed message a rejected thunk falls back to. */
  function DefaultError(t: GitThunk): string {
    match t
    case GetHistory => "Failed to get Git history"
    case Rollback => "Failed to rollback"
  }

  /** The whole state of the slice, as one value. */
  datatype GitState = GitState(commits: seq<GitCommit>, loading: bool, error: Option<string>, currentBranch: string)

  class GitStore {
    var commits: seq<GitCommit>
    var loading: bool
    var error: Option<string>
    var currentBranch: string

    function State(): GitState
      reads this
    {
      GitState(commits, loading, error, currentBranch)
    }

    /** initialState: no commits, not loading, no error, on `main`. */
    constructor()
      ensures State() == GitState([], false, None, "main")
    {
      commits, loading, error, currentBranch := [], false, None, "main";
    }

    method SetCurrentBranch(branch: string)
      modifies this
      ensures State() == old(State()).(currentBranch := branch)
    {
      currentBranch := branch;
    }

    method ClearError()
      modifies this
      ensures State() == old(State()).(error := None)
    {
      error := None;
    }

    /** addCommit: `unshift`, so the newest commit comes first and the rest follow as
        they were. */
    method AddCommit(c: GitCommit)
      modifies this
      ensures State() == old(State()).(commits := [c] + old(commits))
      ensures commits[0] == c && commits[1..] == old(commits)
    {
      commits := [c] + commits;
    }

    /** The pending case of both thunks: loading, with the error cleared. */
    method Pending(thunk: GitThunk)
      modifies this
      ensures State() == old(State()).(loading := true, error := None)
    {
      loading := true;
      error := None;
    }

    /** The rejected case of both thunks: the commits stay, and the error is the message
        or the thunk's fallback. */
    method Rejected(thunk: GitThunk, message: Option<string>)
      modifies this
      ensures State() == old(State()).(loading := false, error := Some(MessageOr(message, DefaultError(thunk))))
    {
      loading := false;
      error := Some(MessageOr(message, DefaultError(thunk)));
    }

    /** getGitHistory.fulfilled: the fetched history replaces the list. */
    method HistoryFulfilled(history: seq<GitCommit>)
      modifies this
      ensures State() == old(State()).(loading := false, commits := history)
    {
      loading := false;
      commits := history;
    }

    /** rollbackToCommit.fulfilled: only `loading` changes; the history is not reloaded. */
    method RollbackFulfilled()
      modifies this
      ensures State() == old(State()).(loading := false)
    {
      loading := false;
    }
  }
}
