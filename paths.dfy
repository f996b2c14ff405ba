/** The two path helpers of the scan: `Path.GetExtension` and a suffix test. */
module Paths {
  import opened Wrappers

  /** `PathInternal.IsDirectorySeparator` on Windows. */
  predicate IsDirectorySeparator(c: char) {
    c == '\\' || c == '/'
  }

  predicate EndsWith(s: string, suffix: string) {
    |suffix| <= |s| && s[|s| - |suffix|..] == suffix
  }

  /** The index of the last `.` or directory separator in `path`, if any. */
  function LastDotOrSeparator(path: string): (r: Option<nat>)
    ensures r.Some? ==> r.value < |path| && (path[r.value] == '.' || IsDirectorySeparator(path[r.value]))
    ensures r.Some? ==> forall j | r.value < j < |path| :: path[j] != '.' && !IsDirectorySeparator(path[j])
    ensures r.None? ==> forall j | 0 <= j < |path| :: path[j] != '.' && !IsDirectorySeparator(path[j])
  {
    if path == [] then None
    else if path[|path| - 1] == '.' || IsDirectorySeparator(path[|path| - 1]) then Some(|path| - 1)
    else LastDotOrSeparator(path[..|path| - 1])
  }

  /** `Path.GetExtension`: from the last `.` of the file name to the end,
      or empty when the name has no `.` or ends in one. */
  function GetExtension(path: string): (r: string)
    ensures r == [] || (|r| >= 2 && EndsWith(path, r) && r[0] == '.')
    ensures forall j | 1 <= j < |r| :: r[j] != '.' && !IsDirectorySeparator(r[j])
  {
    match LastDotOrSeparator(path)
    case None => []
    case Some(i) => if path[i] == '.' && i != |path| - 1 then path[i..] else []
  }

  /** The extension is exactly `ext` iff the path ends in `ext`, for an
      extension such as `.acf`: a dot followed by a name without dots or
      separators. */
  lemma ExtensionIff(path: string, ext: string)
    requires |ext| >= 2 && ext[0] == '.'
    requires forall j | 1 <= j < |ext| :: ext[j] != '.' && !IsDirectorySeparator(ext[j])
    ensures GetExtension(path) == ext <==> EndsWith(path, ext)
  {
    if EndsWith(path, ext) {
      var k := |path| - |ext|;
      assert path[k] == '.';
      var i := LastDotOrSeparator(path);
      assert forall j | k < j < |path| :: path[j] == ext[j - k];
      assert i.Some? && i.value == k;
    }
  }
}
