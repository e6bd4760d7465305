/**
 * DbxFile: the checks the constructor makes before it reads a .dbx file,
 * the header taken from the first 0x24bc bytes, the enumeration cursor and
 * the tree of record addresses.
 */
module Files {
  import opened Wrappers
  import opened Errors
  import opened ByteCodec
  import opened Text
  import opened Header
  import opened Paths

  /**
   * DbxTree, which is not part of this model: the record addresses
   * (FolderInformationIndexes) of the tree rooted at an address of a file.
   */
  type TreeReader = (seq<byte>, nat) -> seq<nat>

  /**
   * The constructor's validation: a missing file and a file whose extension
   * is not ".dbx", compared ordinally, are DbxExceptions; a file shorter
   * than the header makes the header copy fail.
   */
  function OpenBytes(fs: FileSystem, filePath: string): (r: Result<seq<byte>, Error>)
    ensures r.Ok? <==>
      FileExists(fs, filePath) && Extension(filePath) == ".dbx" && |fs.files[filePath]| >= HeaderSize
    ensures r.Ok? ==> r.value == fs.files[filePath]
    ensures !FileExists(fs, filePath) ==> r == Err(FileMissing)
    ensures FileExists(fs, filePath) && Extension(filePath) != ".dbx" ==> r == Err(NotDbxExtension)
    ensures r.Err? && FileExists(fs, filePath) && Extension(filePath) == ".dbx" ==> r.error == OutOfRange
  {
    if !FileExists(fs, filePath) then Err(FileMissing)
    else if Extension(filePath) != ".dbx" then Err(NotDbxExtension)
    else
      var bytes := fs.files[filePath];
      if |bytes| < HeaderSize then Err(OutOfRange) else Ok(bytes)
  }

  /** Opening fails with a DbxException exactly when the file is missing or is not named *.dbx. */
  lemma OpenRefused(fs: FileSystem, filePath: string)
    ensures OpenBytes(fs, filePath).Err? && IsDbxException(OpenBytes(fs, filePath).error)
      <==> !FileExists(fs, filePath) || !EndsWith(filePath, ".dbx")
  {
    DbxExtension(filePath);
  }

  class DbxFile {
    const fileBytes: seq<byte>
    const folderPath: string
    const header: DbxHeader
    var currentIndex: nat
    var preferredEncoding: Option<Encoding>
    var tree: Option<seq<nat>>

    /** The fields the constructor assigns once the checks have passed. */
    constructor (fileBytes: seq<byte>, folderPath: string, header: DbxHeader)
      ensures this.fileBytes == fileBytes && this.folderPath == folderPath && this.header == header
      ensures currentIndex == 0 && preferredEncoding.None? && tree.None?
    {
      this.fileBytes := fileBytes;
      this.folderPath := folderPath;
      this.header := header;
      currentIndex := 0;
      preferredEncoding := None;
      tree := None;
    }

    /** ReadTree: the tree rooted at the header's main tree address. */
    method ReadTree(readTree: TreeReader)
      modifies this
      ensures tree == Some(readTree(fileBytes, header.mainTreeAddress))
      ensures currentIndex == old(currentIndex) && preferredEncoding == old(preferredEncoding)
    {
      tree := Some(readTree(fileBytes, header.mainTreeAddress));
    }
  }

  /**
   * The DbxFile(filePath) constructor: the checks, then the header built
   * from the first 0x24bc bytes, the cursor at 0 and no tree.
   */
  method NewFile(fs: FileSystem, filePath: string) returns (r: Result<DbxFile, Error>)
    ensures r.Ok? <==> OpenBytes(fs, filePath).Ok?
    ensures r.Err? ==> r.error == OpenBytes(fs, filePath).error
    ensures r.Ok? ==>
      var bytes := OpenBytes(fs, filePath).value;
      && fresh(r.value)
      && r.value.fileBytes == bytes && r.value.folderPath == filePath
      && NewHeader(Some(bytes[..HeaderSize])) == Ok(r.value.header)
      && r.value.currentIndex == 0 && r.value.tree.None? && r.value.preferredEncoding.None?
  {
    var content := OpenBytes(fs, filePath);
    if content.Err? {
      return Err(content.error);
    }
    var bytes := content.value;
    var headerBytes := bytes[..HeaderSize];
    HeaderSizeDecodes(headerBytes);
    var header := NewHeader(Some(headerBytes)).value;
    var file := new DbxFile(bytes, filePath, header);
    return Ok(file);
  }
}
