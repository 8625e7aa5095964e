/** The helpers of src/shared/utils.ts that carry logic: file-name sanitising and the
    mapping from a file extension to a mod type. */
module SharedUtils {
  import opened Text
  import opened Types

  /** The extensions recognised as mods (src/shared/constants.ts). */
  const ModFileExtensions: seq<string> := [".package", ".ts4script", ".cfg"]

  /** The characters the class `[<>:"/\\|?*]` matches. */
  predicate IsReservedChar(c: char) {
    c == '<' || c == '>' || c == ':' || c == '"' || c == '/' || c == '\\' || c == '|' || c == '?' || c == '*'
  }

  /** `fileName.replace(/[<>:"/\\|?*]/g, '_')`: every reserved character becomes `_`,
      every other character stays where it is. */
  function SanitizeFileName(fileName: string): (r: string)
    ensures |r| == |fileName|
    ensures forall i :: 0 <= i < |r| ==> !IsReservedChar(r[i])
    ensures forall i :: 0 <= i < |r| && !IsReservedChar(fileName[i]) ==> r[i] == fileName[i]
    ensures forall i :: 0 <= i < |r| && IsReservedChar(fileName[i]) ==> r[i] == '_'
  {
    if fileName == [] then []
    else [if IsReservedChar(fileName[0]) then '_' else fileName[0]] + SanitizeFileName(fileName[1..])
  }

  /** Sanitising twice is sanitising once. */
  lemma SanitizeIdempotent(fileName: string)
    ensures SanitizeFileName(SanitizeFileName(fileName)) == SanitizeFileName(fileName)
  {
    var once := SanitizeFileName(fileName);
    var twice := SanitizeFileName(once);
    assert forall i :: 0 <= i < |once| ==> twice[i] == once[i];
  }

  /** `getModTypeFromExtension`: `.ts4script` and `.cfg` in any letter case name their
      own types; everything else, `.package` included, is a package. */
  function GetModTypeFromExtension(extension: string): (t: ModType)
    ensures t == ScriptMod <==> Lower(extension) == ".ts4script"
    ensures t == CfgMod <==> Lower(extension) == ".cfg"
    ensures t == PackageMod <==> Lower(extension) != ".ts4script" && Lower(extension) != ".cfg"
  {
    match Lower(extension)
    case ".package" => PackageMod
    case ".ts4script" => ScriptMod
    case ".cfg" => CfgMod
    case _ => PackageMod
  }

  /** `s.toUpperCase()`, for ASCII letters. */
  function Upper(s: string): (r: string)
    ensures |r| == |s|
    ensures forall i :: 0 <= i < |s| ==> r[i] == UpperChar(s[i])
  {
    seq(|s|, i requires 0 <= i < |s| => UpperChar(s[i]))
  }

  /** The mapping ignores letter case: an extension and its upper-cased form agree. */
  lemma ModTypeIgnoresCase(extension: string)
    ensures GetModTypeFromExtension(Upper(extension)) == GetModTypeFromExtension(extension)
  {
    assert Lower(Upper(extension)) == Lower(extension);
  }
}
