/**
 * DbxSet: a directory of .dbx files. The folders declared in Folders.dbx
 * are returned first; once they are exhausted, every *.dbx file of the
 * directory that no declared folder names (and that is not one of the
 * system files) is returned as an orphan folder with a fresh id.
 */
module FolderSet {
  import opened Wrappers
  import opened Errors
  import opened ByteCodec
  import opened Text
  import opened Paths
  import opened FolderItem
  import opened Folder
  import opened Files
  import opened FoldersFile

  /** The system files of a mail directory, upper-cased, that are never orphans. */
  const IgnoreFiles: seq<string> :=
    ["CLEANUP.LOG", "FOLDERS.AVX", "FOLDERS.DBX", "OFFLINE.DBX", "POP3UIDL.DBX", "SEARCH FOLDER.DBX"]

  /** uint arithmetic of maximumFolderId. */
  const UintRange: nat := 0x1_0000_0000

  /** Whether a listed file is an orphan: with a folders file, when neither a declared folder nor the ignore list names it. */
  predicate IsOrphan(folderFiles: Option<seq<string>>, name: string)
  {
    match folderFiles
    case None => true
    case Some(declared) => ToUpperInvariant(name) !in declared && ToUpperInvariant(name) !in IgnoreFiles
  }

  /** The names `name(listing[k])`, k < n, that `keep` accepts, in listing order. */
  function Kept(listing: seq<string>, name: string -> string, keep: string -> bool, n: nat): (r: seq<string>)
    requires n <= |listing|
  {
    if n == 0 then []
    else Kept(listing, name, keep, n - 1) + (if keep(name(listing[n - 1])) then [name(listing[n - 1])] else [])
  }

  /** A name is kept exactly when some entry of the listing has it and `keep` accepts it. */
  lemma {:induction false} KeptMembers(listing: seq<string>, name: string -> string, keep: string -> bool, n: nat)
    requires n <= |listing|
    ensures |Kept(listing, name, keep, n)| <= n
    ensures forall x :: x in Kept(listing, name, keep, n) <==>
      (exists k :: 0 <= k < n && name(listing[k]) == x) && keep(x)
  {
    if n > 0 {
      KeptMembers(listing, name, keep, n - 1);
      forall x
        ensures x in Kept(listing, name, keep, n) <==>
          (exists k :: 0 <= k < n && name(listing[k]) == x) && keep(x)
      {
        if (exists k :: 0 <= k < n && name(listing[k]) == x) && keep(x) {
          var k :| 0 <= k < n && name(listing[k]) == x;
          if k < n - 1 {
            assert x in Kept(listing, name, keep, n - 1);
          }
        }
      }
    }
  }

  /**
   * AppendOrphanedFiles over the first `n` entries of the directory listing:
   * the file names, in their own case, of the entries that are orphans.
   */
  function OrphansOf(listing: seq<string>, folderFiles: Option<seq<string>>, n: nat): (r: seq<string>)
    requires n <= |listing|
  {
    Kept(listing, Paths.FileName, x => IsOrphan(folderFiles, x), n)
  }

  /** AppendOrphanedFiles: nothing when the directory does not exist, else the orphans of its listing. */
  function Orphans(fs: FileSystem, path: string, folderFiles: Option<seq<string>>): seq<string>
  {
    if !DirectoryExists(fs, path) then []
    else OrphansOf(fs.directories[path], folderFiles, |fs.directories[path]|)
  }

  /**
   * A name is an orphan exactly when some listed file has that name and
   * that name is upper-cased neither declared nor ignored (everything is an
   * orphan without a folders file); the orphans keep the listing's order.
   */
  lemma OrphansMembers(listing: seq<string>, folderFiles: Option<seq<string>>, n: nat)
    requires n <= |listing|
    ensures |OrphansOf(listing, folderFiles, n)| <= n
    ensures forall name :: name in OrphansOf(listing, folderFiles, n) <==>
      (exists k :: 0 <= k < n && Paths.FileName(listing[k]) == name) && IsOrphan(folderFiles, name)
  {
    KeptMembers(listing, Paths.FileName, x => IsOrphan(folderFiles, x), n);
  }

  /** With no folders file every listed file is an orphan, in listing order, and the ignore list is not applied. */
  lemma {:induction false} AllOrphans(listing: seq<string>, n: nat)
    requires n <= |listing|
    ensures |OrphansOf(listing, None, n)| == n
    ensures forall k :: 0 <= k < n ==> OrphansOf(listing, None, n)[k] == Paths.FileName(listing[k])
  {
    if n > 0 {
      AllOrphans(listing, n - 1);
    }
  }

  /** The fields of DbxSet that GetNextFolder updates. */
  datatype Progress = Progress(maximumFolderId: nat, orphanFileIndex: int, orphanFiles: seq<string>)

  const Start: Progress := Progress(0, -1, [])

  /** The orphan cursor is unset (-1) or inside the orphan list. */
  predicate Tracked(p: Progress)
  {
    && p.maximumFolderId < UintRange
    && -1 <= p.orphanFileIndex <= |p.orphanFiles|
  }

  /**
   * GetNextFolder once the folders file gave `declared`: a declared folder
   * is returned as it is; otherwise the orphan list is computed on the
   * first exhaustion only, and the next orphan, if any, is returned with id
   * maximumFolderId + 1 (a uint). The maximum then takes in the returned id.
   */
  function Next(fs: FileSystem, path: string, folderFiles: Option<seq<string>>, p: Progress,
                declared: Option<DbxFolder>): (r: (Option<DbxFolder>, Progress))
    requires Tracked(p)
    ensures Tracked(r.1)
  {
    var (folder, q) := if declared.Some? then (declared, p) else NextOrphan(fs, path, folderFiles, p);
    if folder.Some? && folder.value.folderId > q.maximumFolderId && folder.value.folderId < UintRange then
      (folder, q.(maximumFolderId := folder.value.folderId))
    else (folder, q)
  }

  /** The orphan list, computed when the cursor is still unset. */
  function Primed(fs: FileSystem, path: string, folderFiles: Option<seq<string>>, p: Progress): (r: Progress)
    requires Tracked(p)
    ensures Tracked(r) && r.orphanFileIndex >= 0 && r.maximumFolderId == p.maximumFolderId
  {
    if p.orphanFileIndex == -1 then p.(orphanFiles := Orphans(fs, path, folderFiles), orphanFileIndex := 0) else p
  }

  /** The next orphan, if any, with id maximumFolderId + 1 as a uint. */
  function NextOrphan(fs: FileSystem, path: string, folderFiles: Option<seq<string>>, p: Progress): (r: (Option<DbxFolder>, Progress))
    requires Tracked(p)
    ensures Tracked(r.1)
  {
    var p0 := Primed(fs, path, folderFiles, p);
    if |p0.orphanFiles| > p0.orphanFileIndex then
      var id := (p0.maximumFolderId + 1) % UintRange;
      (Some(OrphanFolder(fs, path, id, p0.orphanFiles[p0.orphanFileIndex])),
       p0.(maximumFolderId := id, orphanFileIndex := p0.orphanFileIndex + 1))
    else (None, p0)
  }

  /**
   * The ids GetNextFolder hands out. The returned folder's id never exceeds
   * the new maximum, which never drops below the old one, so every id
   * returned earlier stays at or below it; an orphan's id is one more than
   * the old maximum, above every id returned before it. The orphan list is
   * computed once, on the first exhaustion, and orphans are taken one per
   * call, in order.
   */
  lemma NextIds(fs: FileSystem, path: string, folderFiles: Option<seq<string>>, p: Progress,
                declared: Option<DbxFolder>, earlier: seq<nat>)
    requires Tracked(p) && p.maximumFolderId < UintRange - 1
    requires declared.Some? ==> declared.value.folderId < UintRange
    requires forall i :: 0 <= i < |earlier| ==> earlier[i] <= p.maximumFolderId
    ensures var (folder, q) := Next(fs, path, folderFiles, p, declared);
      && q.maximumFolderId >= p.maximumFolderId
      && (folder.Some? ==> folder.value.folderId <= q.maximumFolderId)
      && (forall i :: 0 <= i < |earlier| ==> earlier[i] <= q.maximumFolderId)
      && (declared.Some? ==> folder == declared && q.orphanFiles == p.orphanFiles && q.orphanFileIndex == p.orphanFileIndex)
      && (declared.None? && p.orphanFileIndex != -1 ==> q.orphanFiles == p.orphanFiles)
      && (declared.None? && p.orphanFileIndex == -1 ==> q.orphanFiles == Orphans(fs, path, folderFiles))
      && (declared.None? && folder.Some? ==>
            && folder.value.folderId == p.maximumFolderId + 1
            && (forall i :: 0 <= i < |earlier| ==> earlier[i] < folder.value.folderId)
            && q.orphanFileIndex >= 1
            && folder.value.folderFileName == Some(q.orphanFiles[q.orphanFileIndex - 1])
            && q.orphanFileIndex == (if p.orphanFileIndex == -1 then 0 else p.orphanFileIndex) + 1)
      && (declared.None? && folder.None? ==> q.orphanFileIndex == |q.orphanFiles| && q.maximumFolderId == p.maximumFolderId)
  {
  }

  /**
   * uint wrap-around: an orphan taken when maximumFolderId is 0xFFFFFFFF
   * gets id 0, and the maximum falls back to 0.
   */
  lemma NextWraps(fs: FileSystem, path: string, folderFiles: Option<seq<string>>, p: Progress)
    requires Tracked(p) && p.maximumFolderId == UintRange - 1
    requires p.orphanFileIndex >= 0 && |p.orphanFiles| > p.orphanFileIndex
    ensures Next(fs, path, folderFiles, p, None).0.value.folderId == 0
    ensures Next(fs, path, folderFiles, p, None).1.maximumFolderId == 0
  {
  }

  /** The path the constructor tries: a path without an extension is a directory holding Folders.dbx. */
  function FoldersPath(path: string): string
  {
    if Extension(path) == [] then Combine(path, "Folders.dbx") else path
  }

  /** The constructor opens a folders file only when that path exists and its file name is exactly Folders.dbx. */
  predicate OpensFolders(fs: FileSystem, path: string)
  {
    FileExists(fs, FoldersPath(path)) && Paths.FileName(FoldersPath(path)) == "Folders.dbx"
  }

  /**
   * A path with no Folders.dbx and no directory behind it: no folders file
   * is opened and the first GetNextFolder returns null.
   */
  lemma NothingThere(fs: FileSystem, path: string)
    requires !FileExists(fs, FoldersPath(path)) && !DirectoryExists(fs, path)
    ensures !OpensFolders(fs, path)
    ensures Next(fs, path, None, Start, None) == (None, Progress(0, 0, []))
  {
  }

  class DbxSet {
    const fs: FileSystem
    const path: string
    const preferred: Option<Encoding>
    const foldersFile: Option<DbxFoldersFile>
    var maximumFolderId: nat
    var orphanFileIndex: int
    var orphanFiles: seq<string>

    constructor (fs: FileSystem, path: string, preferred: Option<Encoding>, foldersFile: Option<DbxFoldersFile>)
      ensures this.fs == fs && this.path == path && this.preferred == preferred && this.foldersFile == foldersFile
      ensures State() == Start
    {
      this.fs := fs;
      this.path := path;
      this.preferred := preferred;
      this.foldersFile := foldersFile;
      maximumFolderId := 0;
      orphanFileIndex := -1;
      orphanFiles := [];
    }

    function State(): Progress
      reads this
    {
      Progress(maximumFolderId, orphanFileIndex, orphanFiles)
    }

    /** The folders file and the DbxFile beneath it. */
    function Footprint(): set<object>
    {
      match foldersFile
      case None => {}
      case Some(f) => {f, f.file}
    }

    /** The declared names of the folders file, when there is one. */
    function Declared(): Option<seq<string>>
      reads Footprint()
    {
      match foldersFile
      case None => None
      case Some(f) => Some(f.folderFiles)
    }

    /** AppendOrphanedFiles: walks the directory listing and keeps the orphans' names. */
    method AppendOrphanedFiles() returns (r: seq<string>)
      ensures r == Orphans(fs, path, Declared())
    {
      var orphanFolderFiles: seq<string> := [];
      if DirectoryExists(fs, path) {
        var files := fs.directories[path];
        var folderFiles := Declared();
        var k := 0;
        while k < |files|
          invariant 0 <= k <= |files|
          invariant orphanFolderFiles == OrphansOf(files, folderFiles, k)
        {
          var name := Paths.FileName(files[k]);
          var fileName := ToUpperInvariant(name);
          assert OrphansOf(files, folderFiles, k + 1)
            == orphanFolderFiles + (if IsOrphan(folderFiles, name) then [name] else []);
          if folderFiles.Some? {
            if fileName !in folderFiles.value && fileName !in IgnoreFiles {
              orphanFolderFiles := orphanFolderFiles + [name];
            }
          } else {
            orphanFolderFiles := orphanFolderFiles + [name];
          }
          k := k + 1;
        }
      }
      return orphanFolderFiles;
    }

    /**
     * GetNextFolder: the next declared folder, else the next orphan; a
     * failure of the folders file escapes and leaves the set as it was.
     */
    method GetNextFolder() returns (r: Result<Option<DbxFolder>, Error>)
      requires Tracked(State())
      modifies this, Footprint()
      ensures Tracked(State())
      ensures foldersFile.None? ==>
        var (folder, q) := Next(fs, path, None, old(State()), None);
        r == Ok(folder) && State() == q
      ensures foldersFile.Some? ==>
        var f := foldersFile.value;
        var s := NextFolder(FolderReader(f.codec, f.file.fileBytes), old(f.Active()), old(f.file.currentIndex), false);
        && f.file.currentIndex == s.cursor
        && f.folderFiles == old(f.folderFiles) + s.added
        && f.orderedIndexes == old(f.orderedIndexes) && f.file.tree == old(f.file.tree)
        && match s.outcome
           case Err(error) => r == Err(error) && State() == old(State())
           case Ok(declared) =>
             var (folder, q) := Next(fs, path, Some(f.folderFiles), old(State()), declared);
             r == Ok(folder) && State() == q
    {
      var declared: Option<DbxFolder> := None;
      if foldersFile.Some? {
        var next := foldersFile.value.GetNextFolder();
        if next.Err? {
          return Err(next.error);
        }
        declared := next.value;
      }
      var folder := TakeNext(declared);
      return Ok(folder);
    }

    /** The part of GetNextFolder after the folders file has answered `declared`. */
    method TakeNext(declared: Option<DbxFolder>) returns (folder: Option<DbxFolder>)
      requires Tracked(State())
      modifies this`maximumFolderId, this`orphanFileIndex, this`orphanFiles
      ensures (folder, State()) == Next(fs, path, Declared(), old(State()), declared)
    {
      folder := declared;
      if folder.None? {
        folder := TakeOrphan();
      }
      if folder.Some? && folder.value.folderId > maximumFolderId && folder.value.folderId < UintRange {
        maximumFolderId := folder.value.folderId;
      }
    }

    /** The orphan branch of GetNextFolder. */
    method TakeOrphan() returns (folder: Option<DbxFolder>)
      requires Tracked(State())
      modifies this`maximumFolderId, this`orphanFileIndex, this`orphanFiles
      ensures (folder, State()) == NextOrphan(fs, path, Declared(), old(State()))
    {
      PrimeOrphans();
      folder := None;
      if |orphanFiles| > orphanFileIndex {
        var fileName := orphanFiles[orphanFileIndex];
        maximumFolderId := (maximumFolderId + 1) % UintRange;
        folder := Some(OrphanFolder(fs, path, maximumFolderId, fileName));
        orphanFileIndex := orphanFileIndex + 1;
      }
    }

    /** The orphan list, computed on the first exhaustion only. */
    method PrimeOrphans()
      requires Tracked(State())
      modifies this`orphanFileIndex, this`orphanFiles
      ensures State() == Primed(fs, path, Declared(), old(State()))
    {
      if orphanFileIndex == -1 {
        orphanFiles := AppendOrphanedFiles();
        orphanFileIndex := 0;
      }
    }
  }

  /**
   * The DbxSet constructor: a path without an extension stands for its
   * Folders.dbx; that file is opened only when it exists and is named
   * exactly Folders.dbx, and a DbxException while opening it leaves the set
   * without a folders file; other failures escape. The set keeps the path
   * it was given, which is the directory searched for orphans.
   */
  method NewSet(fs: FileSystem, path: string, preferred: Option<Encoding>, codec: TextCodec, readTree: TreeReader)
    returns (r: Result<DbxSet, Error>)
    ensures r.Err? ==> OpensFolders(fs, path) && OpenBytes(fs, FoldersPath(path)) == Err(r.error) && !IsDbxException(r.error)
    ensures r.Ok? ==>
      var s := r.value;
      && fresh(s) && s.fs == fs && s.path == path && s.preferred == preferred && s.State() == Start
      && (s.foldersFile.Some? <==> OpensFolders(fs, path) && OpenBytes(fs, FoldersPath(path)).Ok?)
      && (s.foldersFile.Some? ==>
            var f := s.foldersFile.value;
            && fresh(f) && fresh(f.file)
            && f.codec == codec && f.folderFiles == [] && f.orderedIndexes == []
            && f.file.fileBytes == OpenBytes(fs, FoldersPath(path)).value
            && f.file.currentIndex == 0 && f.file.preferredEncoding == preferred)
  {
    var foldersPath := FoldersPath(path);
    var foldersFile: Option<DbxFoldersFile> := None;
    if FileExists(fs, foldersPath) {
      if Paths.FileName(foldersPath) == "Folders.dbx" {
        var made := NewFoldersFile(fs, foldersPath, preferred, codec, readTree);
        if made.Ok? {
          foldersFile := Some(made.value);
        } else if !IsDbxException(made.error) {
          return Err(made.error);
        }
      }
    }
    var dbxSet := new DbxSet(fs, path, preferred, foldersFile);
    return Ok(dbxSet);
  }
}
