/** The file system as the services see it through node's `fs`: regular files with their
    `stat` data and an opaque content digest, directories, and paths the process may not
    rename or delete. `readdir` results are handed to the scanners as a `Listing` tree. */
module FileSystem {
  import opened Wrappers

  /** What `fs.stat` reports for a regular file, plus a digest standing for its bytes
      (the SHA-256 the scanner computes is not modelled). */
  datatype FileData = FileData(size: nat, mtime: int, birthtime: int, digest: string)

  /** One `Dirent` of `readdir(dir, { withFileTypes: true })`: a regular file, a
      directory together with what reading it yields, or anything else (a link, a socket). */
  datatype Entry =
    | FileEntry(name: string)
    | DirEntry(name: string, contents: Listing)
    | OtherEntry(name: string)

  /** The outcome of `readdir` on one directory. */
  datatype Listing = Readable(entries: seq<Entry>) | Unreadable

  /** The file table after moving `from` to `to`: POSIX `rename` replaces an existing target. */
  function Moved(files: map<string, FileData>, from: string, to: string): (r: map<string, FileData>)
    requires from in files
    ensures to in r && r[to] == files[from]
    ensures from != to ==> from !in r
    ensures forall p :: p != from && p != to ==> (p in r <==> p in files) && (p in r ==> r[p] == files[p])
  {
    (files - {from})[to := files[from]]
  }

  /** Moving a file to a free name and back restores the file table. */
  lemma MovedBack(files: map<string, FileData>, from: string, to: string)
    requires from in files && to !in files
    ensures Moved(Moved(files, from, to), to, from) == files
  {
    var back := Moved(Moved(files, from, to), to, from);
    assert back.Keys == files.Keys;
  }

  /** Whether `rename(from, to)` of a regular file succeeds, and node's message when it
      does not: the source must exist, the target must not be a directory, and neither
      name may be locked. */
  function RenameCheck(files: map<string, FileData>, dirs: set<string>, locked: set<string>, from: string, to: string): (r: Outcome)
    ensures r.Pass? <==> from in files && to !in dirs && from !in locked && to !in locked
    ensures from in files && to in dirs ==> r == Fail("EISDIR: illegal operation on a directory, rename '" + from + "' -> '" + to + "'")
  {
    if from !in files then Fail("ENOENT: no such file or directory, rename '" + from + "' -> '" + to + "'")
    else if to in dirs then Fail("EISDIR: illegal operation on a directory, rename '" + from + "' -> '" + to + "'")
    else if from in locked || to in locked then Fail("EPERM: operation not permitted, rename '" + from + "' -> '" + to + "'")
    else Pass
  }

  /** Whether `unlink(path)` succeeds, and node's message when it does not: a directory
      at the path is refused as one, and a missing path is reported as missing. */
  function UnlinkCheck(files: map<string, FileData>, dirs: set<string>, locked: set<string>, path: string): (r: Outcome)
    ensures r.Pass? <==> path in files && path !in locked
    ensures path !in files && path in dirs ==> r == Fail("EISDIR: illegal operation on a directory, unlink '" + path + "'")
    ensures path !in files && path !in dirs ==> r == Fail("ENOENT: no such file or directory, unlink '" + path + "'")
  {
    if path !in files then
      if path in dirs then Fail("EISDIR: illegal operation on a directory, unlink '" + path + "'")
      else Fail("ENOENT: no such file or directory, unlink '" + path + "'")
    else if path in locked then Fail("EPERM: operation not permitted, unlink '" + path + "'")
    else Pass
  }

  /** What `fs.readFile` yields for `path`, as the digest of its bytes: nothing when the
      file is not there or cannot be read. */
  function ReadDigest(files: map<string, FileData>, unreadable: set<string>, path: string): (r: Option<string>)
    ensures r.Some? <==> path in files && path !in unreadable
    ensures r.Some? ==> r.value == files[path].digest
  {
    if path in files && path !in unreadable then Some(files[path].digest) else None
  }

  class Disk {
    var files: map<string, FileData>
    var dirs: set<string>
    /** Paths on which `rename` and `unlink` fail with EPERM. */
    var locked: set<string>
    /** Files that `stat` reports but `readFile` cannot read (EACCES, a lock held by
        another process). */
    var unreadable: set<string>

    /** No path is both a regular file and a directory. */
    predicate Valid()
      reads this
    {
      files.Keys !! dirs
    }

    constructor(files: map<string, FileData>, dirs: set<string>, locked: set<string>, unreadable: set<string>)
      requires files.Keys !! dirs
      ensures Valid()
      ensures this.files == files && this.dirs == dirs && this.locked == locked && this.unreadable == unreadable
    {
      this.files := files;
      this.dirs := dirs;
      this.locked := locked;
      this.unreadable := unreadable;
    }

    /** `fs.access(path)` / `fs.existsSync(path)`. */
    predicate Exists(path: string)
      reads this
    {
      path in files || path in dirs
    }

    /** `fs.rename(from, to)` for a regular file. */
    method Rename(from: string, to: string) returns (r: Outcome)
      modifies this
      ensures dirs == old(dirs) && locked == old(locked) && unreadable == old(unreadable)
      ensures r == RenameCheck(old(files), dirs, locked, from, to)
      ensures old(Valid()) ==> Valid()
      ensures r.Pass? ==> files == Moved(old(files), from, to)
      ensures r.Fail? ==> files == old(files)
    {
      r := RenameCheck(files, dirs, locked, from, to);
      if r.Pass? {
        files := Moved(files, from, to);
      }
    }

    /** `fs.unlinkSync(path)` for a regular file. */
    method Unlink(path: string) returns (r: Outcome)
      modifies this
      ensures dirs == old(dirs) && locked == old(locked) && unreadable == old(unreadable)
      ensures r == UnlinkCheck(old(files), dirs, locked, path)
      ensures old(Valid()) ==> Valid()
      ensures r.Pass? ==> files == old(files) - {path}
      ensures r.Fail? ==> files == old(files)
    {
      r := UnlinkCheck(files, dirs, locked, path);
      if r.Pass? {
        files := files - {path};
      }
    }
  }
}
