/**
 * The file system as the engine sees it: which files exist with which bytes,
 * which directories exist with which "*.dbx" files, and the Path helpers.
 */
module Paths {
  import opened Wrappers
  import opened ByteCodec

  /**
   * `files` maps each existing file path to its bytes; `directories` maps each
   * existing directory to the names Directory.GetFiles(dir, "*.dbx") reports.
   */
  datatype FileSystem = FileSystem(files: map<string, seq<byte>>, directories: map<string, seq<string>>)

  predicate FileExists(fs: FileSystem, path: string)
  {
    path in fs.files
  }

  predicate DirectoryExists(fs: FileSystem, path: string)
  {
    path in fs.directories
  }

  /** The directory separators of Windows paths. */
  predicate IsSeparator(c: char)
  {
    c == '\\' || c == '/'
  }

  /** Position of the last '.' in the final component of `path[..i]`. */
  function LastDot(path: string, i: nat): (r: Option<nat>)
    requires i <= |path|
    ensures r.Some? ==> r.value < i && path[r.value] == '.'
    ensures r.Some? ==> forall k :: r.value < k < i ==> path[k] != '.' && !IsSeparator(path[k])
  {
    if i == 0 then None
    else if path[i - 1] == '.' then Some(i - 1)
    else if IsSeparator(path[i - 1]) then None
    else LastDot(path, i - 1)
  }

  /** Path.GetExtension: from the last '.' of the file name to the end, or "" if there is none or it ends the path. */
  function Extension(path: string): string
  {
    match LastDot(path, |path|)
    case None => ""
    case Some(i) => if i == |path| - 1 then "" else path[i..]
  }

  predicate EndsWith(s: string, suffix: string)
  {
    |suffix| <= |s| && s[|s| - |suffix|..] == suffix
  }

  /** A path has the extension ".dbx" (compared ordinally) exactly when it ends in ".dbx". */
  lemma DbxExtension(path: string)
    ensures Extension(path) == ".dbx" <==> EndsWith(path, ".dbx")
  {
    if EndsWith(path, ".dbx") {
      var n := |path|;
      assert path[n - 1] == 'x' && path[n - 2] == 'b' && path[n - 3] == 'd' && path[n - 4] == '.';
      assert LastDot(path, n - 3) == Some(n - 4);
      assert LastDot(path, n - 2) == Some(n - 4);
      assert LastDot(path, n - 1) == Some(n - 4);
      assert LastDot(path, n) == Some(n - 4);
    }
    if Extension(path) == ".dbx" {
      var i := LastDot(path, |path|).value;
      assert path[i..] == ".dbx";
    }
  }

  /** Position just after the last separator of `path[..i]`. */
  function NameStart(path: string, i: nat): (r: nat)
    requires i <= |path|
    ensures r <= i
    ensures forall k :: r <= k < i ==> !IsSeparator(path[k])
  {
    if i == 0 then 0
    else if IsSeparator(path[i - 1]) then i
    else NameStart(path, i - 1)
  }

  /** Path.GetFileName / FileInfo.Name: the final component. */
  function FileName(path: string): (r: string)
    ensures forall k :: 0 <= k < |r| ==> !IsSeparator(r[k])
    ensures EndsWith(path, r)
  {
    path[NameStart(path, |path|)..]
  }

  /** Path.Combine of a directory and a relative file name. */
  function Combine(directory: string, name: string): (r: string)
    ensures EndsWith(r, name)
  {
    if directory == [] then name
    else if IsSeparator(directory[|directory| - 1]) then directory + name
    else directory + "\\" + name
  }

  /** A name without separators is the file name of any combination ending in it. */
  lemma CombineFileName(directory: string, name: string)
    requires forall k :: 0 <= k < |name| ==> !IsSeparator(name[k])
    requires directory != []
    ensures FileName(Combine(directory, name)) == name
  {
    var p := Combine(directory, name);
    var start := |p| - |name|;
    assert IsSeparator(p[start - 1]);
    assert p[start..] == name;
    NameStartFrom(p, |p|, start);
  }

  lemma {:induction false} NameStartFrom(p: string, i: nat, start: nat)
    requires 0 < start <= i <= |p|
    requires IsSeparator(p[start - 1])
    requires forall k :: start <= k < i ==> !IsSeparator(p[k])
    ensures NameStart(p, i) == start
  {
    if i > start {
      NameStartFrom(p, i - 1, start);
    }
  }

  /** Path.GetFileNameWithoutExtension: the file name up to its last '.', or all of it when it has none. */
  function FileNameWithoutExtension(path: string): (r: string)
    ensures |r| <= |FileName(path)| && r == FileName(path)[..|r|]
  {
    var name := FileName(path);
    match LastDot(name, |name|)
    case None => name
    case Some(i) => name[..i]
  }

  /** A name without separators is its own file name. */
  lemma FileNameItself(name: string)
    requires forall k :: 0 <= k < |name| ==> !IsSeparator(name[k])
    ensures FileName(name) == name
  {
    NameStartNone(name, |name|);
  }

  /** A file name not ending in '.' is its stem followed by its extension. */
  lemma StemAndExtension(name: string)
    requires forall k :: 0 <= k < |name| ==> !IsSeparator(name[k])
    requires !EndsWith(name, ".")
    ensures FileNameWithoutExtension(name) + Extension(name) == name
  {
    FileNameItself(name);
    EndsWithChar(name, '.');
    var dot := LastDot(name, |name|);
    if dot.Some? {
      StemAt(name, dot.value);
    } else {
      StemNone(name);
    }
  }

  /** A name without a dot has itself as its stem and no extension. */
  lemma StemNone(name: string)
    requires LastDot(name, |name|).None? && FileName(name) == name
    ensures FileNameWithoutExtension(name) + Extension(name) == name
  {
    assert FileNameWithoutExtension(name) == name;
    assert Extension(name) == "";
  }

  /** Ending in a one-character suffix is having it as the last character. */
  lemma EndsWithChar(s: string, c: char)
    ensures EndsWith(s, [c]) <==> |s| > 0 && s[|s| - 1] == c
  {
    if |s| > 0 {
      assert s[|s| - 1..] == [s[|s| - 1]];
    }
  }

  /** A name whose last dot is at `i`, before its last character, splits there. */
  lemma StemAt(name: string, i: nat)
    requires i + 1 < |name| && LastDot(name, |name|) == Some(i) && FileName(name) == name
    ensures FileNameWithoutExtension(name) + Extension(name) == name
  {
    assert FileNameWithoutExtension(name) == name[..i];
    assert Extension(name) == name[i..];
    SplitAt(name, i);
  }

  lemma SplitAt(s: string, i: nat)
    requires i <= |s|
    ensures s[..i] + s[i..] == s
  {
  }

  /** A path with no separator is its own file name. */
  lemma {:induction false} NameStartNone(p: string, i: nat)
    requires i <= |p|
    requires forall k :: 0 <= k < |p| ==> !IsSeparator(p[k])
    ensures NameStart(p, i) == 0
  {
    if i > 0 {
      NameStartNone(p, i - 1);
    }
  }
}
