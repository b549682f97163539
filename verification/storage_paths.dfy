/**
 Where the backup puts things on the storage device: a folder is mirrored under the
 current target as its last path component, and a file is copied under the current
 target with the name PathFindFileNameW finds in its path.
 */
module StoragePaths {
  import opened Wrappers
  import opened WideString

  const SEPARATOR: char := '\\'

  /** `s` is the last component of `p`: a suffix without '\', either all of `p` or preceded by '\'. */
  ghost predicate IsLastComponent(p: string, s: string) {
    |s| <= |p| && p[|p| - |s|..] == s && SEPARATOR !in s
    && (|s| == |p| || p[|p| - |s| - 1] == SEPARATOR)
  }

  /** `storageDevice` + "\" + the text after the last '\' of `filepath`. */
  function FolderPathOnStorage(filepath: string, storageDevice: string): (r: string)
    ensures |r| > |storageDevice| && r[..|storageDevice| + 1] == storageDevice + [SEPARATOR]
    ensures IsLastComponent(filepath, r[|storageDevice| + 1..])
  {
    // find_last_of returns npos when there is no '\', and npos + 1 wraps to 0
    var start := match LastIndexOf(filepath, SEPARATOR) case Some(i) => i + 1 case None => SizeAdd(NPOS, 1);
    match SubstrToEnd(filepath, start)
    case Some(folderName) =>
      assert |filepath| - |folderName| == start;
      var r := storageDevice + [SEPARATOR] + folderName;
      assert r[|storageDevice| + 1..] == folderName;
      r
    case None =>
      assert false;
      storageDevice
  }

  /** A suffix of `p` longer than its last component reaches back over a '\'. */
  lemma LongerSuffixHasSeparator(p: string, s: string, t: string)
    requires IsLastComponent(p, s)
    requires |t| <= |p| && p[|p| - |t|..] == t
    ensures |t| > |s| ==> SEPARATOR in t
  {
    if |t| > |s| {
      assert t[|t| - |s| - 1] == p[|p| - |s| - 1];
    }
  }

  /** A path has only one last component. */
  lemma LastComponentIsUnique(p: string, s1: string, s2: string)
    requires IsLastComponent(p, s1) && IsLastComponent(p, s2)
    ensures s1 == s2
  {
    LongerSuffixHasSeparator(p, s1, s2);
    LongerSuffixHasSeparator(p, s2, s1);
  }

  /** The mirrored folder of `dir` + "\" + `name` is `name` under the target, for a name without '\'. */
  lemma MirroredChildFolder(dir: string, name: string, storageDevice: string)
    requires SEPARATOR !in name
    ensures FolderPathOnStorage(dir + [SEPARATOR] + name, storageDevice) == storageDevice + [SEPARATOR] + name
  {
    var p := dir + [SEPARATOR] + name;
    var r := FolderPathOnStorage(p, storageDevice);
    assert p[|p| - |name|..] == name;
    assert p[|p| - |name| - 1] == SEPARATOR;
    LastComponentIsUnique(p, r[|storageDevice| + 1..], name);
    assert r == r[..|storageDevice| + 1] + r[|storageDevice| + 1..];
  }

  // ---------------------------------------------------------------------------
  // PathFindFileNameW
  // ---------------------------------------------------------------------------

  /** The characters after which PathFindFileNameW may start a file name. */
  predicate IsPathDelimiter(c: char) {
    c == '\\' || c == '/' || c == ':'
  }

  predicate IsSlash(c: char) {
    c == '\\' || c == '/'
  }

  /** Index `j` starts a component: it follows a delimiter and is not itself a slash. */
  predicate StartsComponent(p: string, j: nat) {
    0 < j < |p| && IsPathDelimiter(p[j - 1]) && !IsSlash(p[j])
  }

  /** The last index at most `j` that starts a component, or 0 if there is none. */
  function LastComponentStart(p: string, j: nat): (k: nat)
    ensures k <= j
    ensures k == 0 || StartsComponent(p, k)
    ensures forall m: nat :: k < m <= j ==> !StartsComponent(p, m)
  {
    if j == 0 then 0
    else if StartsComponent(p, j) then j
    else LastComponentStart(p, j - 1)
  }

  /**
   PathFindFileNameW: the text after the last '\', '/' or ':' that is followed by a
   character other than a slash; the whole path if there is none. A trailing slash
   therefore stays part of the name ("C:\dir\" gives "dir\").
   */
  function FileName(p: string): (r: string)
    ensures |r| <= |p| && r == p[|p| - |r|..]
    ensures |r| < |p| ==> StartsComponent(p, |p| - |r|)
    ensures forall m: nat :: |p| - |r| < m ==> !StartsComponent(p, m)
  {
    var k := LastComponentStart(p, |p|);
    assert k <= |p|;
    p[k..]
  }

  /** Names that FindFirstFile/FindNextFile can return: non-empty, without a delimiter. */
  predicate IsPlainName(name: string) {
    |name| > 0 && forall i :: 0 <= i < |name| ==> !IsPathDelimiter(name[i])
  }

  /** The file name of `dir` + "\" + `name` is `name` for a plain name. */
  lemma FileNameOfChild(dir: string, name: string)
    requires IsPlainName(name)
    ensures FileName(dir + [SEPARATOR] + name) == name
  {
    var p := dir + [SEPARATOR] + name;
    assert StartsComponent(p, |dir| + 1);
    forall m: nat | |dir| + 1 < m
      ensures !StartsComponent(p, m)
    {
      if 0 < m < |p| {
        assert p[m - 1] == name[m - |dir| - 2];
      }
    }
    assert p[|dir| + 1..] == name;
  }
}
