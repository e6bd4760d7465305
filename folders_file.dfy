/**
 * DbxFoldersFile: Folders.dbx read folder by folder. The cursor of the
 * underlying DbxFile walks the active address list (the pre-ordered list
 * once SetTreeOrdered has run, the tree's list before), skipping the root
 * entry, and every declared messages file name is collected upper-cased.
 */
module FoldersFile {
  import opened Wrappers
  import opened Errors
  import opened ByteCodec
  import opened Text
  import opened Header
  import opened Paths
  import opened FolderItem
  import opened Folder
  import opened Files

  /**
   * GetActiveIndexes: the ordered list when it has entries, else the tree's
   * list; before the tree is read that is a null reference.
   */
  function ActiveIndexes(orderedIndexes: seq<nat>, tree: Option<seq<nat>>): (r: Result<seq<nat>, Error>)
    ensures |orderedIndexes| > 0 ==> r == Ok(orderedIndexes)
    ensures |orderedIndexes| == 0 && tree.Some? ==> r == Ok(tree.value)
    ensures |orderedIndexes| == 0 && tree.None? ==> r == Err(NullReference)
  {
    if |orderedIndexes| > 0 then Ok(orderedIndexes)
    else match tree
      case None => Err(NullReference)
      case Some(t) => Ok(t)
  }

  /** The name FolderFiles records for a folder's messages file, if any. */
  function DeclaredName(fileName: Option<string>): seq<string>
  {
    if IsNullOrWhiteSpace(fileName) then [] else [ToUpperInvariant(Trim(fileName.value))]
  }

  /** What one GetNextFolder call returns, where the cursor ends, and the names it records. */
  datatype FolderStep = FolderStep(outcome: Result<Option<DbxFolder>, Error>, cursor: nat, added: seq<string>)

  /**
   * GetNextFolder over the active list. Past the end it returns null and
   * leaves the cursor. Address 0 at cursor 0 is the root and is stepped
   * over. The folder at the cursor is decoded (a failure escapes, with the
   * cursor where it is), its messages file name recorded when not blank,
   * and the cursor moved on. With `asWritten`, a list holding only the root
   * is indexed past its end after the skip; without it that returns null.
   */
  function NextFolder(read: Reader, active: Result<seq<nat>, Error>, cursor: nat, asWritten: bool): FolderStep
  {
    match active
    case Err(error) => FolderStep(Err(error), cursor, [])
    case Ok(indexes) =>
      if cursor >= |indexes| then FolderStep(Ok(None), cursor, [])
      else
        var at := SkipRoot(indexes, cursor);
        if at >= |indexes| then
          FolderStep(if asWritten then Err(OutOfRange) else Ok(None), at, [])
        else
          match read(indexes[at])
          case Err(error) => FolderStep(Err(error), at, [])
          case Ok(folder) => FolderStep(Ok(Some(folder)), at + 1, DeclaredName(folder.folderFileName))
  }

  /** The cursor after stepping over the root, which only the first position can hold. */
  function SkipRoot(indexes: seq<nat>, cursor: nat): (at: nat)
    requires cursor < |indexes|
    ensures at == cursor || (at == 1 && cursor == 0 && indexes[0] == 0)
  {
    if indexes[cursor] == 0 && cursor == 0 then cursor + 1 else cursor
  }

  /**
   * The walk the cursor makes, for both versions: past the end nothing
   * changes; a returned folder is the one decoded at the position just
   * before the new cursor, which is one past the old cursor, or two when
   * the root was stepped over; nothing is returned twice.
   */
  lemma NextFolderAdvance(read: Reader, indexes: seq<nat>, cursor: nat, asWritten: bool)
    ensures var s := NextFolder(read, Ok(indexes), cursor, asWritten);
      && (cursor >= |indexes| ==> s == FolderStep(Ok(None), cursor, []))
      && (s.outcome.Ok? && s.outcome.value.Some? ==>
            && cursor < s.cursor <= |indexes|
            && s.cursor == (if cursor == 0 && indexes[0] == 0 then cursor + 2 else cursor + 1)
            && read(indexes[s.cursor - 1]) == Ok(s.outcome.value.value)
            && s.added == DeclaredName(s.outcome.value.value.folderFileName))
      && (s.outcome.Ok? && s.outcome.value.None? ==> s.added == [] && s.cursor >= |indexes|)
  {
    var s := NextFolder(read, Ok(indexes), cursor, asWritten);
    if cursor < |indexes| {
      var at := if indexes[cursor] == 0 && cursor == 0 then cursor + 1 else cursor;
      assert at == (if cursor == 0 && indexes[0] == 0 then cursor + 1 else cursor);
      if at < |indexes| {
        var got := read(indexes[at]);
        if got.Ok? {
          assert s == FolderStep(Ok(Some(got.value)), at + 1, DeclaredName(got.value.folderFileName));
          assert s.cursor - 1 == at && read(indexes[s.cursor - 1]) == got;
        } else {
          assert s.outcome == Err(got.error);
        }
      } else {
        assert s.cursor == at && s.added == [];
      }
    }
  }

  /**
   * A list holding only the root, which SetTreeOrdered leaves when no folder
   * hangs under the root: the source's GetNextFolder reads past the end of
   * the list (an ArgumentOutOfRangeException, not a DbxException).
   */
  lemma RootOnlyAsWritten(read: Reader)
    ensures NextFolder(read, Ok([0]), 0, true).outcome == Err(OutOfRange)
  {
  }

  /** The corrected GetNextFolder returns null for that list and never reads past the end. */
  lemma RootOnlyCorrected(read: Reader, indexes: seq<nat>, cursor: nat)
    ensures NextFolder(read, Ok([0]), 0, false) == FolderStep(Ok(None), 1, [])
    ensures NextFolder(read, Ok(indexes), cursor, false).outcome.Err? ==>
      exists a :: a in indexes && read(a).Err?
        && NextFolder(read, Ok(indexes), cursor, false).outcome.error == read(a).error
  {
    var s := NextFolder(read, Ok(indexes), cursor, false);
    if s.outcome.Err? {
      assert indexes[s.cursor] in indexes;
    }
  }

  /** The names List records: every address but 0, blank names as "", trimmed and upper-cased. */
  function ListedName(fileName: Option<string>): string
  {
    if IsNullOrWhiteSpace(fileName) then [] else ToUpperInvariant(Trim(fileName.value))
  }

  /**
   * What List records for the addresses, in order, with the failure that
   * stops it, if one does: the names recorded before the failure stay.
   */
  function ListNames(read: Reader, indexes: seq<nat>): (r: (seq<string>, Option<Error>))
  {
    if indexes == [] then ([], None)
    else
      var front := ListNames(read, indexes[..|indexes| - 1]);
      var index := indexes[|indexes| - 1];
      if front.1.Some? || index == 0 then front
      else match read(index)
        case Err(error) => (front.0, Some(error))
        case Ok(folder) => (front.0 + [ListedName(folder.folderFileName)], None)
  }

  /**
   * List records one name per address other than 0 when nothing fails, and
   * never more names than addresses; each name is the upper-cased, trimmed
   * file name of the folder decoded there.
   */
  lemma {:induction false} ListNamesCount(read: Reader, indexes: seq<nat>)
    ensures var r := ListNames(read, indexes);
      && |r.0| <= |indexes|
      && (r.1.None? ==> |r.0| == |indexes| - multiset(indexes)[0])
      && (r.1.None? ==> forall a :: a in indexes && a != 0 ==> read(a).Ok?)
  {
    if indexes != [] {
      var front := indexes[..|indexes| - 1];
      var index := indexes[|indexes| - 1];
      assert indexes == front + [index];
      ListNamesCount(read, front);
      var r := ListNames(read, indexes);
      var before := ListNames(read, front);
      assert r == before || (r.0 == before.0 && r.1.Some?) || |r.0| == |before.0| + 1;
      if r.1.None? {
        forall a | a in indexes && a != 0
          ensures read(a).Ok?
        {
          if a != index {
            assert a in front;
          }
        }
      }
    }
  }

  /** One more address for List: skipped when 0, the name appended or the failure kept otherwise. */
  lemma ListNamesStep(read: Reader, indexes: seq<nat>, k: nat)
    requires k < |indexes|
    ensures var front := ListNames(read, indexes[..k]);
      ListNames(read, indexes[..k + 1]) ==
        if front.1.Some? || indexes[k] == 0 then front
        else match read(indexes[k])
          case Err(error) => (front.0, Some(error))
          case Ok(folder) => (front.0 + [ListedName(folder.folderFileName)], None)
  {
    assert indexes[..k + 1][..k] == indexes[..k];
  }

  /** Once List has failed on a prefix, the rest of the addresses change nothing. */
  lemma {:induction false} ListNamesStops(read: Reader, indexes: seq<nat>, k: nat)
    requires k <= |indexes|
    requires ListNames(read, indexes[..k]).1.Some?
    ensures ListNames(read, indexes) == ListNames(read, indexes[..k])
  {
    if k < |indexes| {
      var front := indexes[..|indexes| - 1];
      assert front[..k] == indexes[..k];
      ListNamesStops(read, front, k);
    } else {
      assert indexes[..k] == indexes;
    }
  }

  class DbxFoldersFile {
    const file: DbxFile
    const codec: TextCodec
    var folderFiles: seq<string>
    var orderedIndexes: seq<nat>

    constructor (file: DbxFile, codec: TextCodec)
      ensures this.file == file && this.codec == codec
      ensures folderFiles == [] && orderedIndexes == []
    {
      this.file := file;
      this.codec := codec;
      folderFiles := [];
      orderedIndexes := [];
    }

    function Active(): Result<seq<nat>, Error>
      reads this, file
    {
      ActiveIndexes(orderedIndexes, file.tree)
    }

    /**
     * The folder at `address` decoded, and its messages file name, when not
     * blank, recorded trimmed and upper-cased.
     */
    method TakeFolder(address: nat) returns (r: Result<DbxFolder, Error>)
      modifies this`folderFiles
      ensures r == FolderReader(codec, file.fileBytes)(address)
      ensures folderFiles == old(folderFiles) + (if r.Ok? then DeclaredName(r.value.folderFileName) else [])
    {
      r := NewFolder(file.fileBytes, address, codec);
      if r.Err? {
        return;
      }
      var fileName := r.value.folderFileName;
      if !IsNullOrWhiteSpace(fileName) {
        var folderFileName := Trim(fileName.value);
        folderFileName := ToUpperInvariant(folderFileName);
        folderFiles := folderFiles + [folderFileName];
      }
    }

    /** GetNextFolder, with the end of the list checked again after the root is stepped over. */
    method GetNextFolder() returns (r: Result<Option<DbxFolder>, Error>)
      modifies this`folderFiles, file`currentIndex
      ensures var s := NextFolder(FolderReader(codec, file.fileBytes), old(Active()), old(file.currentIndex), false);
        && r == s.outcome
        && file.currentIndex == s.cursor
        && folderFiles == old(folderFiles) + s.added
      ensures orderedIndexes == old(orderedIndexes) && file.tree == old(file.tree)
      ensures file.preferredEncoding == old(file.preferredEncoding)
    {
      var active := ActiveIndexes(orderedIndexes, file.tree);
      assert active == Active();
      ghost var read := FolderReader(codec, file.fileBytes);
      ghost var index0 := file.currentIndex;
      ghost var step := NextFolder(read, active, index0, false);
      if active.Err? {
        assert step == FolderStep(Err(active.error), index0, []);
        return Err(active.error);
      }
      var folderIndexes := active.value;
      if file.currentIndex >= |folderIndexes| {
        assert step == FolderStep(Ok(None), index0, []);
        return Ok(None);
      }
      SkipRootEntry(folderIndexes);
      ghost var at := file.currentIndex;
      if file.currentIndex >= |folderIndexes| {
        assert step == FolderStep(Ok(None), at, []);
        return Ok(None);
      }
      var folder := TakeFolder(folderIndexes[file.currentIndex]);
      if folder.Err? {
        assert step == FolderStep(Err(folder.error), at, []);
        return Err(folder.error);
      }
      assert step == FolderStep(Ok(Some(folder.value)), at + 1, DeclaredName(folder.value.folderFileName));
      file.currentIndex := file.currentIndex + 1;
      return Ok(Some(folder.value));
    }

    /** The cursor moved over the root when it is at the first position. */
    method SkipRootEntry(folderIndexes: seq<nat>)
      requires file.currentIndex < |folderIndexes|
      modifies file`currentIndex
      ensures file.currentIndex == SkipRoot(folderIndexes, old(file.currentIndex))
    {
      if folderIndexes[file.currentIndex] == 0 && file.currentIndex == 0 {
        file.currentIndex := file.currentIndex + 1;
      }
    }

    /**
     * List: with a tree, every active address but 0 is decoded and its
     * messages file name recorded, "" when blank; a failure stops the loop.
     */
    method List() returns (r: Option<Error>)
      modifies this`folderFiles
      ensures file.tree.None? ==> r.None? && folderFiles == old(folderFiles)
      ensures file.tree.Some? ==>
        match Active()
        case Err(error) => r == Some(error) && folderFiles == old(folderFiles)
        case Ok(indexes) =>
          var listed := ListNames(FolderReader(codec, file.fileBytes), indexes);
          r == listed.1 && folderFiles == old(folderFiles) + listed.0
      ensures orderedIndexes == old(orderedIndexes)
    {
      if file.tree.None? {
        return None;
      }
      var active := ActiveIndexes(orderedIndexes, file.tree);
      if active.Err? {
        return Some(active.error);
      }
      r := ListAll(active.value);
    }

    /** The loop of List over the active addresses, address 0 skipped. */
    method ListAll(folderIndexes: seq<nat>) returns (r: Option<Error>)
      modifies this`folderFiles
      ensures var listed := ListNames(FolderReader(codec, file.fileBytes), folderIndexes);
        r == listed.1 && folderFiles == old(folderFiles) + listed.0
    {
      ghost var read := FolderReader(codec, file.fileBytes);
      var k := 0;
      while k < |folderIndexes|
        invariant 0 <= k <= |folderIndexes|
        invariant ListNames(read, folderIndexes[..k]).1.None?
        invariant folderFiles == old(folderFiles) + ListNames(read, folderIndexes[..k]).0
      {
        var index := folderIndexes[k];
        ListNamesStep(read, folderIndexes, k);
        if index != 0 {
          var folder := ListFolder(index);
          if folder.Err? {
            ListNamesStops(read, folderIndexes, k + 1);
            return Some(folder.error);
          }
        }
        k := k + 1;
      }
      assert folderIndexes[..k] == folderIndexes;
      return None;
    }

    /** The folder at `address` decoded and its messages file name recorded as List records it. */
    method ListFolder(address: nat) returns (r: Result<DbxFolder, Error>)
      modifies this`folderFiles
      ensures r == FolderReader(codec, file.fileBytes)(address)
      ensures folderFiles == old(folderFiles) + (if r.Ok? then [ListedName(r.value.folderFileName)] else [])
    {
      r := NewFolder(file.fileBytes, address, codec);
      if r.Ok? {
        var folderFileName := ListedName(r.value.folderFileName);
        folderFiles := folderFiles + [folderFileName];
      }
    }

    /**
     * SetTreeOrdered: a fresh root with address 0 takes its children out of
     * the tree's list, which keeps only what no folder claimed; the ordered
     * list becomes the root's pre-order list; the root's children are returned.
     */
    method SetTreeOrdered() returns (r: Result<seq<DbxFolder>, Error>)
      modifies this, file
      ensures file.tree.None? ==> r == Err(NullReference)
      ensures old(file.tree).Some? ==>
        match ChildrenOf(FolderReader(codec, file.fileBytes), RootFolder, old(file.tree).value)
        case Err(error) => r == Err(error)
        case Ok((root, remaining)) =>
          && r == Ok(root.children)
          && file.tree == Some(remaining)
          && orderedIndexes == PreOrder(root)
      ensures r.Err? ==> orderedIndexes == old(orderedIndexes) && file.tree == old(file.tree)
      ensures folderFiles == old(folderFiles) && file.currentIndex == old(file.currentIndex)
      ensures file.preferredEncoding == old(file.preferredEncoding)
    {
      if file.tree.None? {
        return Err(NullReference);
      }
      var children := GetChildren(codec, file.fileBytes, RootFolder, file.tree);
      if children.Err? {
        return Err(children.error);
      }
      var (root, remaining) := children.value;
      file.tree := remaining;
      var ordered := SetOrderedIndexes(root, Some([]));
      orderedIndexes := ordered.value;
      return Ok(root.children);
    }
  }

  /**
   * After SetTreeOrdered the ordered list starts at the root's address 0,
   * and it and what is left of the tree's list together hold the old list's
   * addresses and that 0; every other entry is a folder decoded from its
   * address whose parent is the folder above it.
   */
  lemma OrderedIndexes(codec: TextCodec, fileBytes: seq<byte>, tree: seq<nat>)
    ensures var read := FolderReader(codec, fileBytes);
      match ChildrenOf(read, RootFolder, tree)
      case Err(_) => true
      case Ok((root, remaining)) =>
        && PreOrder(root)[0] == 0
        && multiset(PreOrder(root)) + multiset(remaining) == multiset(tree) + multiset{0}
        && DecodedForest(read, root.children, 0)
  {
    var read := FolderReader(codec, fileBytes);
    ChildrenOfGrows(read, RootFolder, tree);
    match ChildrenOf(read, RootFolder, tree)
    case Err(_) =>
    case Ok((root, remaining)) =>
      PreOrderAddresses(root);
      assert root.children[0..] == root.children;
  }

  /**
   * The DbxFoldersFile constructor: the DbxFile checks, the preferred
   * encoding, and the tree, read only when the header says FolderFile.
   */
  method NewFoldersFile(fs: FileSystem, filePath: string, preferred: Option<Encoding>,
                        codec: TextCodec, readTree: TreeReader) returns (r: Result<DbxFoldersFile, Error>)
    ensures r.Ok? <==> OpenBytes(fs, filePath).Ok?
    ensures r.Err? ==> r.error == OpenBytes(fs, filePath).error
    ensures r.Ok? ==>
      var f := r.value;
      && fresh(f) && fresh(f.file)
      && f.codec == codec && f.folderFiles == [] && f.orderedIndexes == []
      && f.file.fileBytes == OpenBytes(fs, filePath).value && f.file.folderPath == filePath
      && f.file.currentIndex == 0 && f.file.preferredEncoding == preferred
      && (f.file.header.fileType == FolderFile <==> f.file.tree.Some?)
      && (f.file.tree.Some? ==> f.file.tree.value == readTree(f.file.fileBytes, f.file.header.mainTreeAddress))
  {
    var made := NewFile(fs, filePath);
    if made.Err? {
      return Err(made.error);
    }
    var file := made.value;
    var foldersFile := new DbxFoldersFile(file, codec);
    file.preferredEncoding := preferred;
    if file.header.fileType == FolderFile {
      file.ReadTree(readTree);
    }
    return Ok(foldersFile);
  }
}
