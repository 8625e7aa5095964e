/** The parts of node's `path` module the scanners use, for '/'-separated paths. */
module Paths {
  import opened Wrappers
  import opened Text

  const Separator: char := '/'

  /** `path.join(dir, name)` for a directory and one entry name read from it. */
  function JoinPath(dir: string, name: string): string {
    dir + [Separator] + name
  }

  /** `path.basename(p)`: everything after the last separator. */
  function BaseName(p: string): (r: string)
    ensures Separator !in r
    ensures EndsWith(p, r)
    ensures |r| < |p| ==> p[|p| - |r| - 1] == Separator
  {
    if p == [] then []
    else if p[|p| - 1] == Separator then []
    else
      var r := BaseName(p[..|p| - 1]) + [p[|p| - 1]];
      assert p[..|p| - 1][|p| - |r|..] + [p[|p| - 1]] == p[|p| - |r|..];
      r
  }

  lemma BaseNameOfEntry(dir: string, name: string)
    requires Separator !in name
    ensures BaseName(JoinPath(dir, name)) == name
  {
    var p := JoinPath(dir, name);
    var r := BaseName(p);
    assert p[|p| - |name|..] == name;
    assert p[|dir|] == Separator;
  }

  /** Index of the last `.` in `s`. */
  function LastDot(s: string): (r: Option<nat>)
    ensures r.Some? ==> r.value < |s| && s[r.value] == '.' && '.' !in s[r.value + 1..]
    ensures r.None? ==> '.' !in s
  {
    if s == [] then None
    else if s[|s| - 1] == '.' then Some(|s| - 1)
    else
      var r := LastDot(s[..|s| - 1]);
      assert s == s[..|s| - 1] + [s[|s| - 1]];
      if r.Some? then assert s[r.value + 1..] == s[..|s| - 1][r.value + 1..] + [s[|s| - 1]]; r
      else r
  }

  /** `path.extname(name)` for a name without separators: from the last `.` on, except
      when that dot is the name's first character or the name is `..`. */
  function ExtName(name: string): (r: string)
    ensures r == [] || (r[0] == '.' && |r| < |name| && EndsWith(name, r) && '.' !in r[1..])
    ensures '.' in name && name[0] != '.' ==> r != []
  {
    match LastDot(name)
    case None => ""
    case Some(i) =>
      if i == 0 || name == ".." then ""
      else
        assert name[i..][1..] == name[i + 1..];
        name[i..]
  }

  /** `path.basename(name, path.extname(name))`: the name without its extension. */
  function StripExtension(name: string): (r: string)
    ensures name == r + ExtName(name)
  {
    name[..|name| - |ExtName(name)|]
  }
}
