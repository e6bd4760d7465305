/**
 * DbxFolder: a folder read from Folders.dbx, the two GetChildren overloads
 * that build the folder hierarchy out of an unordered list, SetOrderedIndexes,
 * which flattens the hierarchy in pre-order, and the orphan constructor.
 *
 * A folder is a value here: GetChildren returns the folder with its new
 * children and what is left of the list it consumed, where the source
 * updates its `childrenFolders` field and the caller's list in place.
 */
module Folder {
  import opened Wrappers
  import opened Errors
  import opened ByteCodec
  import opened Text
  import opened IndexedItem
  import opened FolderItem
  import Paths

  // ---- Reading a folder ----

  /** The root folder SetTreeOrdered starts from: address 0, id 0. */
  const RootFolder: DbxFolder := DbxFolder(0, 0, 0, None, None, [])

  /**
   * The DbxFolder(fileBytes, address, ...) constructor: the record at
   * `address` is decoded (its preferred encoding is never set) and its four
   * fields copied into a folder whose address is `address`.
   */
  function ReadFolder(codec: TextCodec, file: seq<byte>, address: nat): (r: Result<DbxFolder, Error>)
    ensures r.Ok? ==> r.value.fileAddress == address && r.value.children == []
    ensures r.Ok? <==>
      && NewRecord(file, address).Ok?
      && DecodeFolder(codec, None, None, NewRecord(file, address).value, DbxFolder(address, 0, 0, None, None, [])).Ok?
    ensures r.Err? ==> (IsDbxException(r.error) <==>
      address + PrologueSize <= |file| && Marker(file, address) != address)
  {
    match NewRecord(file, address)
    case Err(error) => Err(error)
    case Ok(rec) =>
      FolderFields(codec, None, None, rec, DbxFolder(address, 0, 0, None, None, []));
      DecodeFolder(codec, None, None, rec, DbxFolder(address, 0, 0, None, None, []))
  }

  /** The constructor as the source runs it, through a DbxIndexedItem. */
  method NewFolder(fileBytes: seq<byte>, address: nat, codec: TextCodec) returns (r: Result<DbxFolder, Error>)
    ensures r == ReadFolder(codec, fileBytes, address)
  {
    var index := NewIndexedItem(fileBytes, address, codec);
    if index.Err? {
      return Err(index.error);
    }
    var item := index.value;
    var folder := FolderItem.SetItemValues(item, Some(DbxFolder(address, 0, 0, None, None, [])));
    if folder.Err? {
      return Err(folder.error);
    }
    return Ok(folder.value.value);
  }

  // ---- The hierarchy ----

  /** The addresses of a folder and all its descendants. */
  function SubtreeAddresses(t: DbxFolder): multiset<nat>
    decreases t, 1
  {
    multiset{t.fileAddress} + ForestAddresses(t.children)
  }

  function ForestAddresses(ts: seq<DbxFolder>): multiset<nat>
    decreases ts, 0
  {
    if ts == [] then multiset{} else ForestAddresses(ts[..|ts| - 1]) + SubtreeAddresses(ts[|ts| - 1])
  }

  lemma {:induction false} ForestAddressesAppend(a: seq<DbxFolder>, b: seq<DbxFolder>)
    ensures ForestAddresses(a + b) == ForestAddresses(a) + ForestAddresses(b)
    decreases |b|
  {
    if b != [] {
      assert (a + b)[..|a + b| - 1] == a + b[..|b| - 1];
      ForestAddressesAppend(a, b[..|b| - 1]);
    } else {
      assert a + b == a;
    }
  }

  /**
   * How the scan decodes an address into a folder. The hierarchy is built
   * over any reader that returns childless folders at the address asked for;
   * the one the source uses is FolderReader.
   */
  type Reader = nat -> Result<DbxFolder, Error>

  ghost predicate ReadsAt(read: Reader)
  {
    forall a: nat :: read(a).Ok? ==> read(a).value.fileAddress == a && read(a).value.children == []
  }

  /** The DbxFolder constructor over the bytes of Folders.dbx. */
  function FolderReader(codec: TextCodec, file: seq<byte>): (read: Reader)
    ensures ReadsAt(read)
  {
    (a: nat) => ReadFolder(codec, file, a)
  }

  /**
   * A folder as the record at its address decodes it, with every child
   * naming it as parent and itself so decoded.
   */
  predicate Decoded(read: Reader, t: DbxFolder)
    decreases t, 1
  {
    read(t.fileAddress) == Ok(t.(children := []))
    && DecodedForest(read, t.children, t.folderId)
  }

  predicate DecodedForest(read: Reader, ts: seq<DbxFolder>, parentId: nat)
    decreases ts, 0
  {
    forall i :: 0 <= i < |ts| ==> ts[i].folderParentId == parentId && Decoded(read, ts[i])
  }

  /** The list with the first occurrence of `x` removed, as List.Remove does. */
  function RemoveFirst<T(==)>(s: seq<T>, x: T): (r: seq<T>)
    ensures x in s ==> |r| == |s| - 1 && multiset(r) == multiset(s) - multiset{x}
    ensures x !in s ==> r == s
  {
    if s == [] then []
    else if s[0] == x then
      assert s == [s[0]] + s[1..];
      s[1..]
    else
      assert s == [s[0]] + s[1..];
      [s[0]] + RemoveFirst(s[1..], x)
  }

  /** The index the scan reads at: an index beyond the list is clamped to its last position. */
  function Clamp(index: int, count: nat): int
  {
    if index >= count then count - 1 else index
  }

  /** How far the scan still has to go. */
  function ScanMeasure(index: int, count: nat): nat
  {
    if index >= count then count else if index < 0 then 0 else index + 1
  }

  /**
   * GetChildren(IList<uint>): the scan from the end of the address list.
   * At each position the folder is decoded; a DbxException skips the
   * address, any other error escapes. A folder naming this one as parent is
   * removed from the list, given its own children from what remains, and
   * appended; the scan then goes on one position lower, clamped to the list.
   */
  function ChildrenOf(read: Reader, folder: DbxFolder, list: seq<nat>)
    : (r: Result<(DbxFolder, seq<nat>), Error>)
    decreases |list|, 1, 0
    ensures r.Ok? ==> |r.value.1| <= |list|
  {
    ScanAddresses(read, folder, list, |list| - 1)
  }

  function ScanAddresses(read: Reader, folder: DbxFolder, list: seq<nat>, index: int)
    : (r: Result<(DbxFolder, seq<nat>), Error>)
    decreases |list|, 0, ScanMeasure(index, |list|)
    ensures r.Ok? ==> |r.value.1| <= |list|
  {
    var i := Clamp(index, |list|);
    if i < 0 then Ok((folder, list))
    else
      match read(list[i])
      case Err(error) =>
        if IsDbxException(error) then ScanAddresses(read, folder, list, i - 1) else Err(error)
      case Ok(child) =>
        if child.folderParentId != folder.folderId then ScanAddresses(read, folder, list, i - 1)
        else
          var rest := RemoveFirst(list, list[i]);
          match ChildrenOf(read, child, rest)
          case Err(error) => Err(error)
          case Ok((grown, remaining)) =>
            ScanAddresses(read, folder.(children := folder.children + [grown]), remaining, i - 1)
  }

  /** The scan from below the first position takes nothing. */
  lemma ScanBelow(read: Reader, folder: DbxFolder, list: seq<nat>, index: int)
    requires index < 0
    ensures ScanAddresses(read, folder, list, index) == Ok((folder, list))
  {
  }

  /** The scan from an index past the end is the scan from the last position. */
  lemma ScanClamped(read: Reader, folder: DbxFolder, list: seq<nat>, index: int)
    ensures ScanAddresses(read, folder, list, index) == ScanAddresses(read, folder, list, Clamp(index, |list|))
  {
  }

  /**
   * What the scan guarantees: only the children change, the old children
   * stay first, every new child names this folder as parent and is decoded
   * from its address, every address taken out of the list is the address of
   * exactly one new folder (the list loses exactly the new subtrees), and
   * no DbxException escapes.
   */
  predicate Grew(read: Reader, folder: DbxFolder, list: seq<nat>,
                 r: Result<(DbxFolder, seq<nat>), Error>)
  {
    && (r.Err? ==> !IsDbxException(r.error))
    && (r.Ok? ==>
          var kids := r.value.0.children;
          && |folder.children| <= |kids|
          && kids[..|folder.children|] == folder.children
          && r.value.0 == folder.(children := kids)
          && DecodedForest(read, kids[|folder.children|..], folder.folderId)
          && multiset(list) == multiset(r.value.1) + ForestAddresses(kids[|folder.children|..]))
  }

  lemma {:induction false} ChildrenOfGrows(read: Reader, folder: DbxFolder, list: seq<nat>)
    requires ReadsAt(read)
    ensures Grew(read, folder, list, ChildrenOf(read, folder, list))
    decreases |list|, 1, 0
  {
    ScanGrows(read, folder, list, |list| - 1);
  }

  lemma {:induction false} ScanGrows(read: Reader, folder: DbxFolder, list: seq<nat>, index: int)
    requires ReadsAt(read)
    ensures Grew(read, folder, list, ScanAddresses(read, folder, list, index))
    decreases |list|, 0, ScanMeasure(index, |list|)
  {
    var i := Clamp(index, |list|);
    if i < 0 {
      assert folder.children[|folder.children|..] == [];
    } else {
      match read(list[i])
      case Err(error) =>
        if IsDbxException(error) {
          ScanGrows(read, folder, list, i - 1);
        }
      case Ok(child) =>
        if child.folderParentId != folder.folderId {
          ScanGrows(read, folder, list, i - 1);
        } else {
          var rest := RemoveFirst(list, list[i]);
          ChildrenOfGrows(read, child, rest);
          match ChildrenOf(read, child, rest)
          case Err(error) =>
          case Ok((grown, remaining)) =>
            var next := folder.(children := folder.children + [grown]);
            ScanGrows(read, next, remaining, i - 1);
            GrewStep(read, folder, list, i, child, grown, remaining,
                     ScanAddresses(read, next, remaining, i - 1));
        }
    }
  }

  /** One matched child: what the rest of the scan grows, preceded by the child, is what the scan grows. */
  lemma GrewStep(read: Reader, folder: DbxFolder, list: seq<nat>, i: nat,
                 child: DbxFolder, grown: DbxFolder, remaining: seq<nat>,
                 r: Result<(DbxFolder, seq<nat>), Error>)
    requires i < |list|
    requires ReadsAt(read) && read(list[i]) == Ok(child) && child.folderParentId == folder.folderId
    requires Grew(read, child, RemoveFirst(list, list[i]), Ok((grown, remaining)))
    requires Grew(read, folder.(children := folder.children + [grown]), remaining, r)
    ensures Grew(read, folder, list, r)
  {
    if r.Ok? {
      var n := |folder.children|;
      var kids := r.value.0.children;
      var rest := RemoveFirst(list, list[i]);
      var later := kids[n + 1..];
      assert child.children == [] && child.fileAddress == list[i];
      assert grown == child.(children := grown.children);
      assert grown.children[0..] == grown.children;
      assert multiset(rest) == multiset(remaining) + ForestAddresses(grown.children);
      assert multiset(remaining) == multiset(r.value.1) + ForestAddresses(later);
      assert kids[..n] == (folder.children + [grown])[..n] == folder.children;
      assert kids[n..] == [grown] + later;
      assert grown.(children := []) == child;
      assert Decoded(read, grown);
      ForestPrepend(read, grown, later, folder.folderId);
      Conserve(list, i, rest, remaining, r.value.1, grown, later);
      assert r.value.0 == folder.(children := kids);
    }
  }

  /** The address bookkeeping of one matched child. */
  lemma Conserve(list: seq<nat>, i: nat, rest: seq<nat>, remaining: seq<nat>, final: seq<nat>,
                 grown: DbxFolder, later: seq<DbxFolder>)
    requires i < |list| && multiset(rest) == multiset(list) - multiset{list[i]}
    requires multiset(rest) == multiset(remaining) + ForestAddresses(grown.children)
    requires multiset(remaining) == multiset(final) + ForestAddresses(later)
    requires grown.fileAddress == list[i]
    ensures multiset(list) == multiset(final) + ForestAddresses([grown] + later)
  {
    ForestAddressesAppend([grown], later);
    assert [grown][..0] == [];
    assert ForestAddresses([grown]) == SubtreeAddresses(grown) == multiset{list[i]} + ForestAddresses(grown.children);
    assert list[i] in multiset(list);
    Rearrange(multiset(list), multiset(rest), multiset(remaining), multiset(final),
              ForestAddresses(grown.children), ForestAddresses(later), list[i]);
  }

  /** The multiset arithmetic behind Conserve. */
  lemma Rearrange<T>(all: multiset<T>, rest: multiset<T>, remaining: multiset<T>, final: multiset<T>,
                     inner: multiset<T>, later: multiset<T>, x: T)
    requires x in all && rest == all - multiset{x}
    requires rest == remaining + inner && remaining == final + later
    ensures all == final + ((multiset{x} + inner) + later)
  {
    assert all == rest + multiset{x};
  }

  /** A decoded child put in front of a decoded forest: still decoded, and its addresses come first. */
  lemma ForestPrepend(read: Reader, t: DbxFolder, ts: seq<DbxFolder>, parentId: nat)
    requires t.folderParentId == parentId && Decoded(read, t)
    requires DecodedForest(read, ts, parentId)
    ensures DecodedForest(read, [t] + ts, parentId)
  {
    var all := [t] + ts;
    forall j | 0 <= j < |all|
      ensures all[j].folderParentId == parentId && Decoded(read, all[j])
    {
      if j > 0 {
        assert all[j] == ts[j - 1];
      }
    }
  }

  /**
   * GetChildren(IList<uint>) as the source runs it: a null list leaves the
   * folder alone; otherwise the list is scanned.
   */
  method GetChildren(codec: TextCodec, fileBytes: seq<byte>, folder: DbxFolder, folderIndexes: Option<seq<nat>>)
    returns (r: Result<(DbxFolder, Option<seq<nat>>), Error>)
    ensures folderIndexes.None? ==> r == Ok((folder, None))
    ensures folderIndexes.Some? ==>
      match ChildrenOf(FolderReader(codec, fileBytes), folder, folderIndexes.value)
      case Ok((grown, remaining)) => r == Ok((grown, Some(remaining)))
      case Err(error) => r == Err(error)
  {
    if folderIndexes.None? {
      return Ok((folder, None));
    }
    var scanned := ScanChildren(codec, fileBytes, folder, folderIndexes.value);
    if scanned.Err? {
      return Err(scanned.error);
    }
    return Ok((scanned.value.0, Some(scanned.value.1)));
  }

  /**
   * The loop of GetChildren(IList<uint>): backwards from the last position,
   * clamping the index whenever removals have shortened the list.
   */
  method ScanChildren(codec: TextCodec, fileBytes: seq<byte>, folder: DbxFolder, folderIndexes: seq<nat>)
    returns (r: Result<(DbxFolder, seq<nat>), Error>)
    ensures r == ChildrenOf(FolderReader(codec, fileBytes), folder, folderIndexes)
    decreases |folderIndexes|, 2
  {
    ghost var read := FolderReader(codec, fileBytes);
    var list := folderIndexes;
    var current := folder;
    var index: int := |list| - 1;
    while index >= 0
      invariant |list| <= |folderIndexes|
      invariant ScanAddresses(read, current, list, index) == ChildrenOf(read, folder, folderIndexes)
      decreases |list|, index + 1
    {
      var step := ScanStep(codec, fileBytes, current, list, index);
      if step.Err? {
        return Err(step.error);
      }
      current, list, index := step.value.0, step.value.1, step.value.2;
    }
    ScanBelow(read, current, list, index);
    return Ok((current, list));
  }

  /**
   * The loop body of GetChildren(IList<uint>): the index clamped to the
   * list, then, unless the list is empty, one pass at that position.
   */
  method ScanStep(codec: TextCodec, fileBytes: seq<byte>, current: DbxFolder, list: seq<nat>, index: int)
    returns (r: Result<(DbxFolder, seq<nat>, int), Error>)
    requires 0 <= index
    ensures var read := FolderReader(codec, fileBytes);
      match r
      case Err(error) => ScanAddresses(read, current, list, index) == Err(error)
      case Ok((next, shorter, i)) =>
        && ScanAddresses(read, next, shorter, i) == ScanAddresses(read, current, list, index)
        && i < index && (shorter == list || |shorter| < |list|)
    decreases |list|, 1
  {
    ghost var read := FolderReader(codec, fileBytes);
    ScanClamped(read, current, list, index);
    var at := index;
    if at >= |list| {
      at := |list| - 1;
    }
    if at == -1 {
      ScanBelow(read, current, list, at);
      ScanBelow(read, current, list, at - 1);
      return Ok((current, list, at - 1));
    }
    var step := ScanAt(codec, fileBytes, current, list, at);
    if step.Err? {
      return Err(step.error);
    }
    return Ok((step.value.0, step.value.1, at - 1));
  }

  /**
   * One pass of the loop body at position `index`: decode the address there,
   * skip it on a DbxException, and take the folder in, with its own
   * children, when it names this folder as parent.
   */
  method ScanAt(codec: TextCodec, fileBytes: seq<byte>, current: DbxFolder, list: seq<nat>, index: nat)
    returns (r: Result<(DbxFolder, seq<nat>), Error>)
    requires index < |list|
    ensures var read := FolderReader(codec, fileBytes);
      match r
      case Err(error) => ScanAddresses(read, current, list, index) == Err(error)
      case Ok((next, shorter)) =>
        && ScanAddresses(read, next, shorter, index - 1) == ScanAddresses(read, current, list, index)
        && (shorter == list || |shorter| < |list|)
    decreases |list|, 0
  {
    var address := list[index];
    var child := NewFolder(fileBytes, address, codec);
    if child.Err? {
      if !IsDbxException(child.error) {
        return Err(child.error);
      }
      return Ok((current, list));
    }
    if child.value.folderParentId != current.folderId {
      return Ok((current, list));
    }
    var rest := RemoveFirst(list, address);
    var sub := ScanChildren(codec, fileBytes, child.value, rest);
    if sub.Err? {
      return Err(sub.error);
    }
    return Ok((current.(children := current.children + [sub.value.0]), sub.value.1));
  }

  // ---- GetChildren(IList<DbxFolder>) ----

  /** The list with the element at position `i` removed: List.Remove of that very object. */
  function RemoveAt<T>(s: seq<T>, i: nat): (r: seq<T>)
    requires i < |s|
    ensures |r| == |s| - 1
    ensures forall k :: 0 <= k < i ==> r[k] == s[k]
    ensures forall k :: i <= k < |r| ==> r[k] == s[k + 1]
  {
    s[..i] + s[i + 1..]
  }

  /** Removing a position loses exactly the element there. */
  lemma RemoveAtMultiset<T>(s: seq<T>, i: nat)
    requires i < |s|
    ensures multiset(RemoveAt(s, i)) == multiset(s) - multiset{s[i]}
  {
    assert s == s[..i] + [s[i]] + s[i + 1..];
  }

  /**
   * GetChildren(IList<DbxFolder>) over folders already decoded. With
   * `asWritten` the scan is the source's: the clamp may reach -1 on an
   * emptied list and index the list there, and after a match the index is
   * lowered by the number of the child's children. Without it the scan is
   * the corrected one: an emptied list ends the scan, and the scan goes on
   * one position lower, as GetChildren(IList<uint>) does.
   */
  function FolderChildren(folder: DbxFolder, list: seq<DbxFolder>, asWritten: bool)
    : (r: Result<(DbxFolder, seq<DbxFolder>), Error>)
    decreases |list|, 1, 0
    ensures r.Ok? ==> |r.value.1| <= |list|
  {
    ScanFolders(folder, list, |list| - 1, asWritten)
  }

  function ScanFolders(folder: DbxFolder, list: seq<DbxFolder>, index: int, asWritten: bool)
    : (r: Result<(DbxFolder, seq<DbxFolder>), Error>)
    decreases |list|, 0, ScanMeasure(index, |list|)
    ensures r.Ok? ==> |r.value.1| <= |list|
  {
    if index < 0 then Ok((folder, list))
    else
      var i := Clamp(index, |list|);
      if i < 0 then (if asWritten then Err(OutOfRange) else Ok((folder, list)))
      else if list[i].folderParentId != folder.folderId then ScanFolders(folder, list, i - 1, asWritten)
      else
        match FolderChildren(list[i], RemoveAt(list, i), asWritten)
        case Err(error) => Err(error)
        case Ok((grown, remaining)) =>
          var next := if asWritten then i - |grown.children| - 1 else i - 1;
          ScanFolders(folder.(children := folder.children + [grown]), remaining, next, asWritten)
  }

  /**
   * GetChildren(IList<DbxFolder>) as the source means it: a null list leaves
   * the folder alone; otherwise the corrected scan, which never fails.
   */
  method GetChildrenFolders(folder: DbxFolder, folders: Option<seq<DbxFolder>>)
    returns (grown: DbxFolder, remaining: Option<seq<DbxFolder>>)
    ensures folders.None? ==> grown == folder && remaining.None?
    ensures folders.Some? ==> remaining.Some? && FolderChildren(folder, folders.value, false) == Ok((grown, remaining.value))
  {
    if folders.None? {
      return folder, None;
    }
    var left;
    grown, left := ScanFolderList(folder, folders.value);
    remaining := Some(left);
  }

  /** The loop of GetChildren(IList<DbxFolder>), with the -1 guard and without the index adjustment. */
  method ScanFolderList(folder: DbxFolder, folders: seq<DbxFolder>) returns (grown: DbxFolder, remaining: seq<DbxFolder>)
    ensures FolderChildren(folder, folders, false) == Ok((grown, remaining))
    decreases |folders|, 1
  {
    var list := folders;
    var current := folder;
    var index: int := |list| - 1;
    while index >= 0
      invariant |list| <= |folders|
      invariant ScanFolders(current, list, index, false) == FolderChildren(folder, folders, false)
      decreases |list|, index + 1
    {
      if index >= |list| {
        index := |list| - 1;
      }
      if index > -1 {
        current, list := ScanFolderAt(current, list, index);
      }
      index := index - 1;
    }
    return current, list;
  }

  /** One pass of the loop body at position `index`. */
  method ScanFolderAt(current: DbxFolder, list: seq<DbxFolder>, index: nat) returns (next: DbxFolder, shorter: seq<DbxFolder>)
    requires index < |list|
    ensures ScanFolders(next, shorter, index - 1, false) == ScanFolders(current, list, index, false)
    ensures shorter == list || |shorter| < |list|
    decreases |list|, 0
  {
    var candidate := list[index];
    if candidate.folderParentId != current.folderId {
      return current, list;
    }
    var rest := RemoveAt(list, index);
    var child, left := ScanFolderList(candidate, rest);
    return current.(children := current.children + [child]), left;
  }

  /** Only the corrected scan is total; the source's fails only by indexing the emptied list. */
  lemma {:induction false} FolderChildrenFails(folder: DbxFolder, list: seq<DbxFolder>, asWritten: bool)
    ensures FolderChildren(folder, list, asWritten).Err? ==>
      asWritten && FolderChildren(folder, list, asWritten).error == OutOfRange
    decreases |list|, 1, 0
  {
    ScanFoldersFails(folder, list, |list| - 1, asWritten);
  }

  lemma {:induction false} ScanFoldersFails(folder: DbxFolder, list: seq<DbxFolder>, index: int, asWritten: bool)
    ensures ScanFolders(folder, list, index, asWritten).Err? ==>
      asWritten && ScanFolders(folder, list, index, asWritten).error == OutOfRange
    decreases |list|, 0, ScanMeasure(index, |list|)
  {
    var i := Clamp(index, |list|);
    if index >= 0 && i >= 0 {
      if list[i].folderParentId != folder.folderId {
        ScanFoldersFails(folder, list, i - 1, asWritten);
      } else {
        FolderChildrenFails(list[i], RemoveAt(list, i), asWritten);
        match FolderChildren(list[i], RemoveAt(list, i), asWritten)
        case Err(_) =>
        case Ok((grown, remaining)) =>
          var next := if asWritten then i - |grown.children| - 1 else i - 1;
          ScanFoldersFails(folder.(children := folder.children + [grown]), remaining, next, asWritten);
      }
    }
  }

  /** Folders as the test builds them: none has children yet. */
  predicate Childless(list: seq<DbxFolder>)
  {
    forall k :: 0 <= k < |list| ==> list[k].children == []
  }

  /** The folders of a tree, each taken without its children. */
  function SubtreeFolders(t: DbxFolder): multiset<DbxFolder>
    decreases t, 1
  {
    multiset{t.(children := [])} + ForestFolders(t.children)
  }

  function ForestFolders(ts: seq<DbxFolder>): multiset<DbxFolder>
    decreases ts, 0
  {
    if ts == [] then multiset{} else ForestFolders(ts[..|ts| - 1]) + SubtreeFolders(ts[|ts| - 1])
  }

  lemma {:induction false} ForestFoldersAppend(a: seq<DbxFolder>, b: seq<DbxFolder>)
    ensures ForestFolders(a + b) == ForestFolders(a) + ForestFolders(b)
    decreases |b|
  {
    if b != [] {
      assert (a + b)[..|a + b| - 1] == a + b[..|b| - 1];
      ForestFoldersAppend(a, b[..|b| - 1]);
    } else {
      assert a + b == a;
    }
  }

  /** Every child in the tree names its parent's id as its parent id. */
  predicate Linked(t: DbxFolder)
    decreases t, 1
  {
    LinkedForest(t.children, t.folderId)
  }

  predicate LinkedForest(ts: seq<DbxFolder>, parentId: nat)
    decreases ts, 0
  {
    forall i :: 0 <= i < |ts| ==> ts[i].folderParentId == parentId && Linked(ts[i])
  }

  /**
   * What the folder-list scan guarantees over a list of childless folders:
   * only the children change, the old children stay first, the new children
   * and all their descendants are linked to their parents, every folder
   * taken out of the list is placed exactly once in the new subtrees, and
   * what is left is still childless.
   */
  predicate Placed(folder: DbxFolder, list: seq<DbxFolder>, r: Result<(DbxFolder, seq<DbxFolder>), Error>)
  {
    r.Ok? ==>
      var kids := r.value.0.children;
      && |folder.children| <= |kids|
      && kids[..|folder.children|] == folder.children
      && r.value.0 == folder.(children := kids)
      && LinkedForest(kids[|folder.children|..], folder.folderId)
      && multiset(list) == multiset(r.value.1) + ForestFolders(kids[|folder.children|..])
      && Childless(r.value.1)
  }

  lemma {:induction false} FolderChildrenPlaced(folder: DbxFolder, list: seq<DbxFolder>, asWritten: bool)
    requires Childless(list)
    ensures Placed(folder, list, FolderChildren(folder, list, asWritten))
    decreases |list|, 1, 0
  {
    ScanFoldersPlaced(folder, list, |list| - 1, asWritten);
  }

  lemma {:induction false} ScanFoldersPlaced(folder: DbxFolder, list: seq<DbxFolder>, index: int, asWritten: bool)
    requires Childless(list)
    ensures Placed(folder, list, ScanFolders(folder, list, index, asWritten))
    decreases |list|, 0, ScanMeasure(index, |list|)
  {
    var i := Clamp(index, |list|);
    if index < 0 || i < 0 {
      assert folder.children[|folder.children|..] == [];
    } else if list[i].folderParentId != folder.folderId {
      ScanFoldersPlaced(folder, list, i - 1, asWritten);
    } else {
      var rest := RemoveAt(list, i);
      assert Childless(rest);
      FolderChildrenPlaced(list[i], rest, asWritten);
      match FolderChildren(list[i], rest, asWritten)
      case Err(_) =>
      case Ok((grown, remaining)) =>
        var next := folder.(children := folder.children + [grown]);
        var index' := if asWritten then i - |grown.children| - 1 else i - 1;
        ScanFoldersPlaced(next, remaining, index', asWritten);
        PlacedStep(folder, list, i, grown, remaining, ScanFolders(next, remaining, index', asWritten));
    }
  }

  /** One matched folder: what the rest of the scan places, preceded by the grown child, is what the scan places. */
  lemma PlacedStep(folder: DbxFolder, list: seq<DbxFolder>, i: nat, grown: DbxFolder, remaining: seq<DbxFolder>,
                   r: Result<(DbxFolder, seq<DbxFolder>), Error>)
    requires i < |list| && Childless(list) && list[i].folderParentId == folder.folderId
    requires Placed(list[i], RemoveAt(list, i), Ok((grown, remaining)))
    requires Placed(folder.(children := folder.children + [grown]), remaining, r)
    ensures Placed(folder, list, r)
  {
    if r.Ok? {
      var n := |folder.children|;
      var kids := r.value.0.children;
      var later := kids[n + 1..];
      assert grown.children[0..] == grown.children;
      assert kids[..n] == (folder.children + [grown])[..n] == folder.children;
      assert kids[n..] == [grown] + later;
      assert grown.(children := []) == list[i];
      LinkedPrepend(grown, later, folder.folderId);
      RemoveAtMultiset(list, i);
      FolderConserve(list, i, RemoveAt(list, i), remaining, r.value.1, grown, later);
      assert r.value.0 == folder.(children := kids);
    }
  }

  /** The folder bookkeeping of one matched child. */
  lemma FolderConserve(list: seq<DbxFolder>, i: nat, rest: seq<DbxFolder>, remaining: seq<DbxFolder>,
                       final: seq<DbxFolder>, grown: DbxFolder, later: seq<DbxFolder>)
    requires i < |list| && multiset(rest) == multiset(list) - multiset{list[i]}
    requires multiset(rest) == multiset(remaining) + ForestFolders(grown.children)
    requires multiset(remaining) == multiset(final) + ForestFolders(later)
    requires grown.(children := []) == list[i]
    ensures multiset(list) == multiset(final) + ForestFolders([grown] + later)
  {
    ForestFoldersAppend([grown], later);
    assert [grown][..0] == [];
    assert ForestFolders([grown]) == SubtreeFolders(grown) == multiset{list[i]} + ForestFolders(grown.children);
    assert list[i] in multiset(list);
    Rearrange(multiset(list), multiset(rest), multiset(remaining), multiset(final),
              ForestFolders(grown.children), ForestFolders(later), list[i]);
  }

  /** A linked child put in front of a linked forest: still linked. */
  lemma LinkedPrepend(t: DbxFolder, ts: seq<DbxFolder>, parentId: nat)
    requires t.folderParentId == parentId && Linked(t)
    requires LinkedForest(ts, parentId)
    ensures LinkedForest([t] + ts, parentId)
  {
    var all := [t] + ts;
    forall j | 0 <= j < |all|
      ensures all[j].folderParentId == parentId && Linked(all[j])
    {
      if j > 0 {
        assert all[j] == ts[j - 1];
      }
    }
  }

  /** `a` is what is left of `b` after some of its elements are deleted, the rest in order. */
  predicate Subsequence<T(==)>(a: seq<T>, b: seq<T>)
    decreases |b|
  {
    a == [] ||
    (b != [] &&
      ((a[|a| - 1] == b[|b| - 1] && Subsequence(a[..|a| - 1], b[..|b| - 1]))
       || Subsequence(a, b[..|b| - 1])))
  }

  lemma {:induction false} SubsequenceRefl<T>(a: seq<T>)
    ensures Subsequence(a, a)
    decreases |a|
  {
    if a != [] {
      SubsequenceRefl(a[..|a| - 1]);
    }
  }

  lemma {:induction false} SubsequenceMembers<T>(a: seq<T>, b: seq<T>)
    requires Subsequence(a, b)
    ensures |a| <= |b|
    ensures forall x :: x in a ==> x in b
    decreases |b|
  {
    if a != [] {
      var a', b' := a[..|a| - 1], b[..|b| - 1];
      assert a == a' + [a[|a| - 1]] && b == b' + [b[|b| - 1]];
      if a[|a| - 1] == b[|b| - 1] && Subsequence(a', b') {
        SubsequenceMembers(a', b');
      } else {
        SubsequenceMembers(a, b');
      }
    }
  }

  lemma {:induction false} SubsequenceTrans<T>(a: seq<T>, b: seq<T>, c: seq<T>)
    requires Subsequence(a, b) && Subsequence(b, c)
    ensures Subsequence(a, c)
    decreases |c|
  {
    if a != [] {
      var a', b', c' := a[..|a| - 1], b[..|b| - 1], c[..|c| - 1];
      if Subsequence(b, c') {
        SubsequenceTrans(a, b, c');
      } else if a[|a| - 1] == b[|b| - 1] && Subsequence(a', b') {
        SubsequenceTrans(a', b', c');
      } else {
        SubsequenceTrans(a, b', c');
      }
    }
  }

  /** The elements from position p on of a subsequence come from position p on of the whole. */
  lemma {:induction false} SubsequenceSuffix<T>(a: seq<T>, b: seq<T>, p: nat)
    requires Subsequence(a, b) && p <= |a| && p <= |b|
    ensures Subsequence(a[p..], b[p..])
    decreases |b|
  {
    SubsequenceMembers(a, b);
    if p < |a| {
      var a', b' := a[..|a| - 1], b[..|b| - 1];
      if a[|a| - 1] == b[|b| - 1] && Subsequence(a', b') {
        SubsequenceSuffix(a', b', p);
        assert a[p..][..|a[p..]| - 1] == a'[p..] && b[p..][..|b[p..]| - 1] == b'[p..];
      } else {
        SubsequenceMembers(a, b');
        SubsequenceSuffix(a, b', p);
        assert b[p..][..|b[p..]| - 1] == b'[p..];
      }
    }
  }

  lemma {:induction false} RemoveAtSubsequence<T>(s: seq<T>, i: nat)
    requires i < |s|
    ensures Subsequence(RemoveAt(s, i), s)
    decreases |s|
  {
    var r := RemoveAt(s, i);
    if i == |s| - 1 {
      assert r == s[..|s| - 1];
      SubsequenceRefl(r);
      if r != [] {
        assert Subsequence(r, s[..|s| - 1]);
      }
    } else {
      var s' := s[..|s| - 1];
      RemoveAtSubsequence(s', i);
      assert RemoveAt(s', i) == r[..|r| - 1];
      assert r[|r| - 1] == s[|s| - 1];
    }
  }

  /** The ids of a tree's folders. */
  function SubtreeIds(t: DbxFolder): set<nat>
    decreases t, 1
  {
    {t.folderId} + ForestIds(t.children)
  }

  function ForestIds(ts: seq<DbxFolder>): set<nat>
    decreases ts, 0
  {
    if ts == [] then {} else ForestIds(ts[..|ts| - 1]) + SubtreeIds(ts[|ts| - 1])
  }

  /**
   * What the corrected scan adds: what is left of the list keeps its order,
   * and none of it names as parent this folder or any folder placed under it
   * from position `n` of its children on.
   */
  predicate Complete(folder: DbxFolder, list: seq<DbxFolder>, n: nat, r: Result<(DbxFolder, seq<DbxFolder>), Error>)
  {
    r.Ok? ==>
      && n <= |r.value.0.children|
      && Subsequence(r.value.1, list)
      && forall x :: x in r.value.1 ==>
           x.folderParentId != folder.folderId && x.folderParentId !in ForestIds(r.value.0.children[n..])
  }

  lemma {:induction false} FolderChildrenComplete(folder: DbxFolder, list: seq<DbxFolder>)
    requires Childless(list)
    ensures Complete(folder, list, |folder.children|, FolderChildren(folder, list, false))
    decreases |list|, 1, 0
  {
    assert folder.children[|folder.children|..] == [];
    ScanFoldersComplete(folder, list, |list| - 1, |folder.children|);
  }

  lemma {:induction false} ScanFoldersComplete(folder: DbxFolder, list: seq<DbxFolder>, index: int, n: nat)
    requires Childless(list) && n <= |folder.children|
    requires forall k :: 0 <= k < |list| && Clamp(index, |list|) < k ==> list[k].folderParentId != folder.folderId
    requires forall x :: x in list ==> x.folderParentId !in ForestIds(folder.children[n..])
    ensures Complete(folder, list, n, ScanFolders(folder, list, index, false))
    decreases |list|, 0, ScanMeasure(index, |list|)
  {
    var i := Clamp(index, |list|);
    if index < 0 || i < 0 {
      SubsequenceRefl(list);
      forall x | x in list
        ensures x.folderParentId != folder.folderId
      {
        var k :| 0 <= k < |list| && list[k] == x;
      }
    } else if list[i].folderParentId != folder.folderId {
      ScanFoldersComplete(folder, list, i - 1, n);
    } else {
      ScanMatchComplete(folder, list, index, n);
    }
  }

  /** The scan at a child of `folder`: the child grows from the rest of the list, and the scan goes on below it. */
  lemma {:induction false} ScanMatchComplete(folder: DbxFolder, list: seq<DbxFolder>, index: int, n: nat)
    requires Childless(list) && n <= |folder.children|
    requires 0 <= index && 0 <= Clamp(index, |list|)
    requires list[Clamp(index, |list|)].folderParentId == folder.folderId
    requires forall k :: 0 <= k < |list| && Clamp(index, |list|) < k ==> list[k].folderParentId != folder.folderId
    requires forall x :: x in list ==> x.folderParentId !in ForestIds(folder.children[n..])
    ensures Complete(folder, list, n, ScanFolders(folder, list, index, false))
    decreases |list|, 0, 0
  {
    var i := Clamp(index, |list|);
    var rest := RemoveAt(list, i);
    assert Childless(rest);
    FolderChildrenComplete(list[i], rest);
    FolderChildrenPlaced(list[i], rest, false);
    FolderChildrenFails(list[i], rest, false);
    var (grown, remaining) := FolderChildren(list[i], rest, false).value;
    MatchedComplete(folder, list, i, n, grown, remaining);
    var next := folder.(children := folder.children + [grown]);
    assert ScanFolders(folder, list, index, false) == ScanFolders(next, remaining, i - 1, false);
    ScanFoldersComplete(next, remaining, i - 1, n);
    var r := ScanFolders(next, remaining, i - 1, false);
    if r.Ok? {
      RemoveAtSubsequence(list, i);
      SubsequenceTrans(r.value.1, remaining, rest);
      SubsequenceTrans(r.value.1, rest, list);
    }
  }

  /** After one matched child the scan can go on one position lower with nothing missed. */
  lemma MatchedComplete(folder: DbxFolder, list: seq<DbxFolder>, i: nat, n: nat,
                        grown: DbxFolder, remaining: seq<DbxFolder>)
    requires i < |list| && Childless(list) && n <= |folder.children|
    requires list[i].folderParentId == folder.folderId
    requires forall k :: i < k < |list| ==> list[k].folderParentId != folder.folderId
    requires forall x :: x in list ==> x.folderParentId !in ForestIds(folder.children[n..])
    requires Placed(list[i], RemoveAt(list, i), Ok((grown, remaining)))
    requires Complete(list[i], RemoveAt(list, i), 0, Ok((grown, remaining)))
    ensures Childless(remaining)
    ensures var next := folder.(children := folder.children + [grown]);
      && n <= |next.children|
      && (forall k :: 0 <= k < |remaining| && Clamp(i - 1, |remaining|) < k ==> remaining[k].folderParentId != folder.folderId)
      && (forall x :: x in remaining ==> x.folderParentId !in ForestIds(next.children[n..]))
  {
    var rest := RemoveAt(list, i);
    var next := folder.(children := folder.children + [grown]);
    SubsequenceMembers(remaining, rest);
    RemainingPositions(list, i, remaining, folder.folderId);
    assert grown.children[0..] == grown.children;
    ForestIdsAppend(folder.children[n..], grown);
    assert next.children[n..] == folder.children[n..] + [grown];
    forall x | x in remaining
      ensures x.folderParentId !in ForestIds(next.children[n..])
    {
      RemovedMember(list, i, x);
    }
  }

  lemma ForestIdsAppend(ts: seq<DbxFolder>, t: DbxFolder)
    ensures ForestIds(ts + [t]) == ForestIds(ts) + SubtreeIds(t)
  {
    assert (ts + [t])[..|ts|] == ts;
  }

  /** Whatever is still in the list after removing position i was in it before. */
  lemma RemovedMember(list: seq<DbxFolder>, i: nat, x: DbxFolder)
    requires i < |list| && x in RemoveAt(list, i)
    ensures x in list
  {
    var rest := RemoveAt(list, i);
    var j :| 0 <= j < |rest| && rest[j] == x;
    if j < i {
      assert rest[j] == list[j];
    } else {
      assert rest[j] == list[j + 1];
    }
  }

  /** What is left at positions i and up came from positions above i. */
  lemma RemainingPositions(list: seq<DbxFolder>, i: nat, remaining: seq<DbxFolder>, id: nat)
    requires i < |list|
    requires forall k :: i < k < |list| ==> list[k].folderParentId != id
    requires Subsequence(remaining, RemoveAt(list, i))
    ensures forall k :: 0 <= k < |remaining| && Clamp(i - 1, |remaining|) < k ==> remaining[k].folderParentId != id
  {
    var rest := RemoveAt(list, i);
    SubsequenceMembers(remaining, rest);
    if i < |remaining| {
      SubsequenceSuffix(remaining, rest, i);
      SubsequenceMembers(remaining[i..], rest[i..]);
      forall k | 0 <= k < |remaining| && Clamp(i - 1, |remaining|) < k
        ensures remaining[k].folderParentId != id
      {
        assert remaining[k] == remaining[i..][k - i];
        assert remaining[k] in rest[i..];
        var j :| 0 <= j < |rest[i..]| && rest[i..][j] == remaining[k];
        assert rest[i + j] == list[i + j + 1];
      }
    }
  }

  /** A folder made by the DbxFolder(id, parentId, name, fileName) constructor. */
  function Listed(id: nat, parentId: nat, name: string): (f: DbxFolder)
    ensures f.folderId == id && f.folderParentId == parentId && f.folderName == Some(name)
    ensures f.fileAddress == 0 && f.folderFileName == None && f.children == []
  {
    DbxFolder(0, id, parentId, Some(name), None, [])
  }

  /** The folders of the ordered-tree test. */
  const TreeA: DbxFolder := DbxFolder(0, 1, 0, Some("A"), None, [])
  const TreeB: DbxFolder := DbxFolder(0, 2, 4, Some("B"), None, [])
  const TreeC: DbxFolder := DbxFolder(0, 3, 0, Some("C"), None, [])
  const TreeD: DbxFolder := DbxFolder(0, 4, 5, Some("D"), None, [])
  const TreeE: DbxFolder := DbxFolder(0, 5, 0, Some("E"), None, [])
  const TreeRoot: DbxFolder := DbxFolder(0, 0, 0, Some("root"), None, [])

  /**
   * The ordered-tree test: under a root with id 0, A(1 under 0), B(2 under 4),
   * C(3 under 0), D(4 under 5) and E(5 under 0) give the root the children
   * E, C and A, in that order, with D under E and B under D; nothing is left.
   * The corrected scan gives the same tree.
   */
  lemma TreeOrder(asWritten: bool)
    ensures FolderChildren(TreeRoot, [TreeA, TreeB, TreeC, TreeD, TreeE], asWritten)
      == Ok((TreeRoot.(children := [TreeE.(children := [TreeD.(children := [TreeB])]), TreeC, TreeA]), []))
  {
    var e1 := TreeE.(children := [TreeD.(children := [TreeB])]);
    TreeOrderE(asWritten);
    TreeOrderRoot(asWritten);
    assert RemoveAt([TreeA, TreeB, TreeC, TreeD, TreeE], 4) == [TreeA, TreeB, TreeC, TreeD];
    assert TreeRoot.children + [e1] == [e1];
    var r1 := TreeRoot.(children := [e1]);
    assert ScanFolders(r1, [TreeA, TreeC], 2, asWritten) == ScanFolders(r1, [TreeA, TreeC], 3, asWritten);
  }

  /** Past E, the root takes C and then A out of [A, C], wherever the scan resumes. */
  lemma TreeOrderRoot(asWritten: bool)
    ensures var e1 := TreeE.(children := [TreeD.(children := [TreeB])]);
      forall index :: 1 <= index <= 3 ==>
        ScanFolders(TreeRoot.(children := [e1]), [TreeA, TreeC], index, asWritten)
          == Ok((TreeRoot.(children := [e1, TreeC, TreeA]), []))
  {
    var a, c := TreeA, TreeC;
    var e1 := TreeE.(children := [TreeD.(children := [TreeB])]);
    assert RemoveAt([a, c], 1) == [a];
    assert RemoveAt([a], 0) == [];
    assert FolderChildren(a, [], asWritten) == Ok((a, []));
    assert ScanFolders(c, [a], 0, asWritten) == Ok((c, [a]));
    assert FolderChildren(c, [a], asWritten) == Ok((c, [a]));
    var r1 := TreeRoot.(children := [e1]);
    var r2 := TreeRoot.(children := [e1, c]);
    var r3 := TreeRoot.(children := [e1, c, a]);
    assert ScanFolders(r3, [], -1, asWritten) == Ok((r3, []));
    assert r2.children + [a] == [e1, c, a] && r1.children + [c] == [e1, c];
    assert ScanFolders(r2, [a], 0, asWritten) == Ok((r3, []));
    assert ScanFolders(r1, [a, c], 1, asWritten) == Ok((r3, []));
    assert ScanFolders(r1, [a, c], 2, asWritten) == Ok((r3, []));
    assert ScanFolders(r1, [a, c], 3, asWritten) == Ok((r3, []));
  }

  /** E takes D, and with it B, out of [A, B, C, D]. */
  lemma TreeOrderE(asWritten: bool)
    ensures FolderChildren(TreeE, [TreeA, TreeB, TreeC, TreeD], asWritten)
      == Ok((TreeE.(children := [TreeD.(children := [TreeB])]), [TreeA, TreeC]))
  {
    var a, c := TreeA, TreeC;
    var d1 := TreeD.(children := [TreeB]);
    var e1 := TreeE.(children := [d1]);
    TreeOrderD(asWritten);
    assert RemoveAt([a, TreeB, c, TreeD], 3) == [a, TreeB, c];
    assert TreeE.children + [d1] == [d1];
    assert ScanFolders(e1, [a, c], 0, asWritten) == Ok((e1, [a, c]));
    assert ScanFolders(e1, [a, c], 1, asWritten) == Ok((e1, [a, c]));
    assert ScanFolders(e1, [a, c], 2, asWritten) == Ok((e1, [a, c]));
  }

  /** D takes B out of [A, B, C]; B finds nothing in [A, C]. */
  lemma TreeOrderD(asWritten: bool)
    ensures FolderChildren(TreeD, [TreeA, TreeB, TreeC], asWritten)
      == Ok((TreeD.(children := [TreeB]), [TreeA, TreeC]))
  {
    var a, b, c := TreeA, TreeB, TreeC;
    var d1 := TreeD.(children := [b]);
    assert ScanFolders(b, [a, c], 0, asWritten) == Ok((b, [a, c]));
    assert FolderChildren(b, [a, c], asWritten) == Ok((b, [a, c]));
    assert RemoveAt([a, b, c], 1) == [a, c];
    assert ScanFolders(d1, [a, c], 0, asWritten) == Ok((d1, [a, c]));
    assert TreeD.children + [b] == [b];
    assert ScanFolders(TreeD, [a, b, c], 1, asWritten) == Ok((d1, [a, c]));
  }

  /** Folders for the two inputs on which the source's scan goes wrong. */
  const ChainA: DbxFolder := DbxFolder(0, 1, 0, Some("A"), None, [])
  const ChainK: DbxFolder := DbxFolder(0, 2, 1, Some("K"), None, [])
  const ChainG: DbxFolder := DbxFolder(0, 3, 2, Some("G"), None, [])
  const SkipX: DbxFolder := DbxFolder(0, 1, 0, Some("X"), None, [])
  const SkipZ: DbxFolder := DbxFolder(0, 3, 0, Some("Z"), None, [])
  const SkipY: DbxFolder := DbxFolder(0, 2, 3, Some("Y"), None, [])

  /**
   * A chain G under K under A under the root, listed leaf first: the
   * source's scan empties the list, clamps the index to -1 and reads the
   * list there (ArgumentOutOfRangeException, which is not caught); the
   * corrected scan builds the chain.
   */
  lemma ChainOutOfRange()
    ensures FolderChildren(TreeRoot, [ChainG, ChainK, ChainA], true) == Err(OutOfRange)
    ensures FolderChildren(TreeRoot, [ChainG, ChainK, ChainA], false)
      == Ok((TreeRoot.(children := [ChainA.(children := [ChainK.(children := [ChainG])])]), []))
  {
    var a1 := ChainA.(children := [ChainK.(children := [ChainG])]);
    var r1 := TreeRoot.(children := [a1]);
    ChainUnderA(true);
    ChainUnderA(false);
    assert RemoveAt([ChainG, ChainK, ChainA], 2) == [ChainG, ChainK];
    assert TreeRoot.children + [a1] == [a1];
    assert ScanFolders(r1, [], 0, true) == Err(OutOfRange);
    assert ScanFolders(r1, [], 1, false) == Ok((r1, []));
  }

  /** Under A, K takes G: both scans empty the list. */
  lemma ChainUnderA(asWritten: bool)
    ensures FolderChildren(ChainA, [ChainG, ChainK], asWritten)
      == Ok((ChainA.(children := [ChainK.(children := [ChainG])]), []))
  {
    var k1 := ChainK.(children := [ChainG]);
    var a1 := ChainA.(children := [k1]);
    assert RemoveAt([ChainG], 0) == [];
    assert RemoveAt([ChainG, ChainK], 1) == [ChainG];
    assert ChainK.children + [ChainG] == [ChainG] && ChainA.children + [k1] == [k1];
    assert FolderChildren(ChainG, [], asWritten) == Ok((ChainG, []));
    assert ScanFolders(ChainK, [ChainG], 0, asWritten) == Ok((k1, []));
    assert ScanFolders(ChainA, [ChainG, ChainK], 1, asWritten) == Ok((a1, []));
  }

  /**
   * X and Z under the root, Y under Z, listed X, Z, Y: after taking Z and
   * its one child Y the source's scan lowers its index past X, which stays
   * in the list although its parent is the root.
   */
  lemma SiblingSkipped()
    ensures FolderChildren(TreeRoot, [SkipX, SkipZ, SkipY], true)
      == Ok((TreeRoot.(children := [SkipZ.(children := [SkipY])]), [SkipX]))
    ensures SkipX.folderParentId == TreeRoot.folderId
  {
    var z1 := SkipZ.(children := [SkipY]);
    SkipUnderZ(true);
    assert RemoveAt([SkipX, SkipZ, SkipY], 1) == [SkipX, SkipY];
    assert TreeRoot.children + [z1] == [z1];
    assert ScanFolders(TreeRoot, [SkipX, SkipZ, SkipY], 1, true) == Ok((TreeRoot.(children := [z1]), [SkipX]));
  }

  /** The corrected scan of the same list takes X as well, and leaves nothing. */
  lemma SiblingTaken()
    ensures FolderChildren(TreeRoot, [SkipX, SkipZ, SkipY], false)
      == Ok((TreeRoot.(children := [SkipZ.(children := [SkipY]), SkipX]), []))
  {
    SkipTakeZ();
    assert ScanFolders(TreeRoot, [SkipX, SkipZ, SkipY], 2, false)
      == ScanFolders(TreeRoot, [SkipX, SkipZ, SkipY], 1, false);
  }

  /** The corrected scan at Z: Z comes in with Y, then X. */
  lemma SkipTakeZ()
    ensures ScanFolders(TreeRoot, [SkipX, SkipZ, SkipY], 1, false)
      == Ok((TreeRoot.(children := [SkipZ.(children := [SkipY]), SkipX]), []))
  {
    var z1 := SkipZ.(children := [SkipY]);
    var r1 := TreeRoot.(children := [z1]);
    assert r1.children + [SkipX] == [z1, SkipX];
    SkipUnderZ(false);
    SkipLast();
    assert RemoveAt([SkipX, SkipZ, SkipY], 1) == [SkipX, SkipY];
    assert TreeRoot.children + [z1] == [z1];
    ScanTake(TreeRoot, [SkipX, SkipZ, SkipY], 1, false, z1, [SkipX]);
  }

  /** One matched folder: the scan goes on past it with the grown child appended. */
  lemma ScanTake(folder: DbxFolder, list: seq<DbxFolder>, i: nat, asWritten: bool,
                 grown: DbxFolder, remaining: seq<DbxFolder>)
    requires i < |list| && list[i].folderParentId == folder.folderId
    requires FolderChildren(list[i], RemoveAt(list, i), asWritten) == Ok((grown, remaining))
    ensures ScanFolders(folder, list, i, asWritten)
      == ScanFolders(folder.(children := folder.children + [grown]), remaining,
                     if asWritten then i - |grown.children| - 1 else i - 1, asWritten)
  {
  }

  /** Once Z is in, the corrected scan takes X, the last folder left. */
  lemma SkipLast()
    ensures var r1 := TreeRoot.(children := [SkipZ.(children := [SkipY])]);
      ScanFolders(r1, [SkipX], 0, false) == Ok((r1.(children := r1.children + [SkipX]), []))
  {
    assert RemoveAt([SkipX], 0) == [];
    assert FolderChildren(SkipX, [], false) == Ok((SkipX, []));
  }

  /** Under Z, Y is taken and X is left: both scans agree. */
  lemma SkipUnderZ(asWritten: bool)
    ensures FolderChildren(SkipZ, [SkipX, SkipY], asWritten) == Ok((SkipZ.(children := [SkipY]), [SkipX]))
  {
    var z1 := SkipZ.(children := [SkipY]);
    assert RemoveAt([SkipX, SkipY], 1) == [SkipX];
    assert SkipZ.children + [SkipY] == [SkipY];
    assert ScanFolders(SkipY, [SkipX], 0, asWritten) == Ok((SkipY, [SkipX]));
    assert ScanFolders(z1, [SkipX], 0, asWritten) == Ok((z1, [SkipX]));
    assert ScanFolders(SkipZ, [SkipX, SkipY], 1, asWritten) == Ok((z1, [SkipX]));
  }

  // ---- SetOrderedIndexes ----

  /** The pre-order address list: the folder's address, then each child's subtree in child order. */
  function PreOrder(t: DbxFolder): seq<nat>
    decreases t, 1
  {
    [t.fileAddress] + ForestPreOrder(t.children)
  }

  function ForestPreOrder(ts: seq<DbxFolder>): seq<nat>
    decreases ts, 0
  {
    if ts == [] then [] else ForestPreOrder(ts[..|ts| - 1]) + PreOrder(ts[|ts| - 1])
  }

  /**
   * SetOrderedIndexes: a null list stays null; otherwise this folder's
   * address is appended, then each child appends its own subtree.
   */
  method SetOrderedIndexes(folder: DbxFolder, orderedIndexes: Option<seq<nat>>) returns (r: Option<seq<nat>>)
    ensures orderedIndexes.None? ==> r.None?
    ensures orderedIndexes.Some? ==> r == Some(orderedIndexes.value + PreOrder(folder))
    decreases folder
  {
    if orderedIndexes.None? {
      return None;
    }
    var list := orderedIndexes.value + [folder.fileAddress];
    for k := 0 to |folder.children|
      invariant list == orderedIndexes.value + [folder.fileAddress] + ForestPreOrder(folder.children[..k])
    {
      assert folder.children[..k + 1][..k] == folder.children[..k];
      var next := SetOrderedIndexes(folder.children[k], Some(list));
      list := next.value;
    }
    assert folder.children[..|folder.children|] == folder.children;
    assert PreOrder(folder) == [folder.fileAddress] + ForestPreOrder(folder.children);
    assert list == orderedIndexes.value + [folder.fileAddress] + ForestPreOrder(folder.children);
    assert list == orderedIndexes.value + PreOrder(folder);
    return Some(list);
  }

  /** The pre-order list holds every address of the tree exactly as often as the tree does. */
  lemma {:induction false} PreOrderAddresses(t: DbxFolder)
    ensures multiset(PreOrder(t)) == SubtreeAddresses(t)
    decreases t, 1
  {
    ForestPreOrderAddresses(t.children);
  }

  lemma {:induction false} ForestPreOrderAddresses(ts: seq<DbxFolder>)
    ensures multiset(ForestPreOrder(ts)) == ForestAddresses(ts)
    decreases ts, 0
  {
    if ts != [] {
      ForestPreOrderAddresses(ts[..|ts| - 1]);
      PreOrderAddresses(ts[|ts| - 1]);
    }
  }

  /** The pre-order list starts with the folder's own address. */
  lemma PreOrderStarts(t: DbxFolder)
    ensures |PreOrder(t)| >= 1 && PreOrder(t)[0] == t.fileAddress
  {
  }

  // ---- Orphans ----

  /**
   * The DbxFolder(path, folderId, folderFileName, ...) constructor for a
   * messages file no folder declares: parent 0, no address. The name is the
   * file's name without its extension, and only when the file exists; a path
   * without an extension is a directory the file name is combined with.
   */
  function OrphanFolder(fs: Paths.FileSystem, path: string, folderId: nat, folderFileName: string): (f: DbxFolder)
    ensures f.folderId == folderId && f.folderParentId == 0 && f.fileAddress == 0 && f.children == []
    ensures f.folderFileName == Some(folderFileName)
    ensures f.folderName.Some? <==> path != [] && Paths.FileExists(fs, OrphanPath(path, folderFileName))
    ensures f.folderName.Some? ==> f.folderName.value == Paths.FileNameWithoutExtension(OrphanPath(path, folderFileName))
  {
    var name :=
      if path == [] then None
      else
        var filePath := OrphanPath(path, folderFileName);
        if Paths.FileExists(fs, filePath) then Some(Paths.FileNameWithoutExtension(filePath)) else None;
    DbxFolder(0, folderId, 0, name, Some(folderFileName), [])
  }

  /** The path the orphan constructor opens. */
  function OrphanPath(path: string, folderFileName: string): string
  {
    if Paths.Extension(path) == [] then Paths.Combine(path, folderFileName) else path
  }

  /** Given a directory, an orphan whose file exists is named after the file, without its extension. */
  lemma OrphanName(fs: Paths.FileSystem, directory: string, folderId: nat, fileName: string)
    requires directory != [] && Paths.Extension(directory) == []
    requires forall k :: 0 <= k < |fileName| ==> !Paths.IsSeparator(fileName[k])
    requires !Paths.EndsWith(fileName, ".")
    requires Paths.FileExists(fs, Paths.Combine(directory, fileName))
    ensures OrphanFolder(fs, directory, folderId, fileName).folderName.Some?
    ensures OrphanFolder(fs, directory, folderId, fileName).folderName.value + Paths.Extension(fileName) == fileName
  {
    var p := Paths.Combine(directory, fileName);
    Paths.CombineFileName(directory, fileName);
    Paths.FileNameItself(fileName);
    assert Paths.FileName(p) == Paths.FileName(fileName);
    assert Paths.FileNameWithoutExtension(p) == Paths.FileNameWithoutExtension(fileName);
    Paths.StemAndExtension(fileName);
    assert OrphanPath(directory, fileName) == p;
    assert OrphanFolder(fs, directory, folderId, fileName).folderName == Some(Paths.FileNameWithoutExtension(p));
  }
}
