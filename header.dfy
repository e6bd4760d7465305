/**
 * The .dbx file header: the file type read from byte 4, the magic-byte check
 * that only warns, and the header words chosen by file type.
 */
module Header {
  import opened Wrappers
  import opened Errors
  import opened ByteCodec

  /** DbxFileType. */
  datatype FileType = Unknown | MessageFile | FolderFile | OffLine | Pop3uidl

  /** The decoded header; every field is 0 unless the header says otherwise. */
  datatype DbxHeader = DbxHeader(
    fileType: FileType,
    fileInfoLength: nat,
    deletedItems: nat,
    folderCount: nat,
    mainTreeAddress: nat)

  /** Word positions in the header. */
  const FileInfoLengthIndex: nat := 7
  const DeletedItemsIndex: nat := 0x12
  const FolderCountIndex: nat := 0x31
  const MainTreeRootNodeIndex: nat := 0x3B
  const MessageTreeRootNodeIndex: nat := 0x39

  /** The expected first 28 bytes of a .dbx file; byte 4 is the file type and is not checked. */
  const CheckBytes: seq<byte> := [
    0xCF, 0xAD, 0x12, 0xFE, 0xC5, 0xFD, 0x74, 0x6F, 0x66, 0xE3,
    0xD1, 0x11, 0x9A, 0x4E, 0x00, 0xC0, 0x4F, 0xA3, 0x09, 0xD4,
    0x05, 0x00, 0x00, 0x00, 0x05, 0x00, 0x00, 0x00]

  /**
   * GetFileType: byte 4 names the type; 0x30 is the off-line file only when
   * bytes 5..7 are 9D FE 26. The warning for an unknown type reads bytes 5..7,
   * so a buffer shorter than 8 bytes fails there.
   */
  function GetFileType(bytes: seq<byte>): (r: Result<FileType, Error>)
    ensures r.Ok? <==> |bytes| >= 8 || (|bytes| > 4 && bytes[4] in {0xC5, 0xC6, 0xC7})
    ensures r == Ok(MessageFile) <==> |bytes| > 4 && bytes[4] == 0xC5
    ensures r == Ok(FolderFile) <==> |bytes| > 4 && bytes[4] == 0xC6
    ensures r == Ok(Pop3uidl) <==> |bytes| > 4 && bytes[4] == 0xC7
    ensures r == Ok(OffLine) <==> |bytes| >= 8 && bytes[4..8] == [0x30, 0x9D, 0xFE, 0x26]
    ensures r.Err? ==> r.error == OutOfRange
  {
    if |bytes| <= 4 then Err(OutOfRange)
    else if bytes[4] == 0xC5 then Ok(MessageFile)
    else if bytes[4] == 0xC6 then Ok(FolderFile)
    else if bytes[4] == 0xC7 then Ok(Pop3uidl)
    else if |bytes| < 8 then Err(OutOfRange)
    else if bytes[4] == 0x30 && bytes[5] == 0x9D && bytes[6] == 0xFE && bytes[7] == 0x26 then Ok(OffLine)
    else Ok(Unknown)
  }

  /** The byte 4 value of each known file type. */
  function TypeMarker(t: FileType): byte
  {
    match t
    case MessageFile => 0xC5
    case FolderFile => 0xC6
    case Pop3uidl => 0xC7
    case OffLine => 0x30
    case Unknown => 0
  }

  /** A known file type is recovered from, and only from, its marker byte. */
  lemma FileTypeMarker(bytes: seq<byte>, t: FileType)
    requires t != Unknown
    ensures GetFileType(bytes) == Ok(t) ==> bytes[4] == TypeMarker(t)
    ensures t != OffLine && |bytes| > 4 && bytes[4] == TypeMarker(t) ==> GetFileType(bytes) == Ok(t)
  {
  }

  /** ConfirmByte: whether byte `index` is the expected one; reading past the end fails. */
  function ConfirmByte(bytes: seq<byte>, index: nat, checkValue: byte): (r: Result<bool, Error>)
    ensures r.Ok? <==> index < |bytes|
    ensures r.Ok? ==> (r.value <==> bytes[index] == checkValue)
  {
    if index < |bytes| then Ok(bytes[index] == checkValue) else Err(OutOfRange)
  }

  /** Byte `i` is checked against the magic bytes and differs from it. */
  predicate Mismatch(bytes: seq<byte>, i: nat)
  {
    i < |CheckBytes| && i != 4 && i < |bytes| && bytes[i] != CheckBytes[i]
  }

  /**
   * CheckInitialBytes: compares the first 28 bytes, skipping byte 4, and
   * reports the positions that differ (the source only logs them).
   */
  method CheckInitialBytes(bytes: seq<byte>) returns (r: Result<seq<nat>, Error>)
    ensures r.Ok? <==> |bytes| >= |CheckBytes|
    ensures r.Ok? ==> forall i: nat :: i in r.value <==> Mismatch(bytes, i)
    ensures r.Ok? ==> forall j, k :: 0 <= j < k < |r.value| ==> r.value[j] < r.value[k]
    ensures r.Err? ==> r.error == OutOfRange
  {
    var warnings: seq<nat> := [];
    var index := 0;
    while index < |CheckBytes|
      invariant 0 <= index <= |CheckBytes|
      invariant index <= |bytes| || (index == 5 && |bytes| == 4)
      invariant forall i: nat :: i in warnings <==> i < index && Mismatch(bytes, i)
      invariant forall j :: 0 <= j < |warnings| ==> warnings[j] < index
      invariant forall j, k :: 0 <= j < k < |warnings| ==> warnings[j] < warnings[k]
    {
      if index != 4 {
        var confirm := ConfirmByte(bytes, index, CheckBytes[index]);
        if confirm.Err? {
          return Err(confirm.error);
        }
        if !confirm.value {
          warnings := warnings + [index];
        }
      }
      index := index + 1;
    }
    return Ok(warnings);
  }

  /** The number of header words the constructor reads for a file type. */
  function WordsNeeded(t: FileType): nat
  {
    match t
    case FolderFile => MainTreeRootNodeIndex + 1
    case MessageFile => MessageTreeRootNodeIndex + 1
    case _ => DeletedItemsIndex + 1
  }

  /**
   * The DbxHeader constructor. A null buffer gives an all-zero Unknown header.
   * Otherwise the buffer is read as little-endian words (its length must be a
   * whole number of words), and the folder count and tree root are read only
   * for folder and message files.
   */
  function NewHeader(headerBytes: Option<seq<byte>>): (r: Result<DbxHeader, Error>)
    ensures headerBytes.None? ==> r == Ok(DbxHeader(Unknown, 0, 0, 0, 0))
    ensures headerBytes.Some? ==>
      var bytes := headerBytes.value;
      (r.Ok? <==> GetFileType(bytes).Ok? && |bytes| >= |CheckBytes| && |bytes| % 4 == 0
                  && |bytes| / 4 >= WordsNeeded(GetFileType(bytes).value))
    ensures r.Err? ==> r.error == OutOfRange
    ensures r.Ok? && headerBytes.Some? ==>
      var bytes := headerBytes.value;
      && r.value.fileType == GetFileType(bytes).value
      && r.value.fileInfoLength == Word(bytes, FileInfoLengthIndex)
      && r.value.deletedItems == Word(bytes, DeletedItemsIndex)
      && (r.value.fileType == FolderFile ==>
            r.value.folderCount == Word(bytes, FolderCountIndex)
            && r.value.mainTreeAddress == Word(bytes, MainTreeRootNodeIndex))
      && (r.value.fileType == MessageFile ==>
            r.value.folderCount == Word(bytes, FolderCountIndex)
            && r.value.mainTreeAddress == Word(bytes, MessageTreeRootNodeIndex))
      && (r.value.fileType !in {FolderFile, MessageFile} ==>
            r.value.folderCount == 0 && r.value.mainTreeAddress == 0)
  {
    match headerBytes
    case None => Ok(DbxHeader(Unknown, 0, 0, 0, 0))
    case Some(bytes) =>
      var fileType := GetFileType(bytes);
      if fileType.Err? || |bytes| < |CheckBytes| then Err(OutOfRange)
      else if |bytes| % 4 != 0 || |bytes| / 4 < WordsNeeded(fileType.value) then Err(OutOfRange)
      else
        var words := ToIntegerArray(bytes);
        var folderCount := if fileType.value in {FolderFile, MessageFile} then words[FolderCountIndex] else 0;
        var mainTree :=
          if fileType.value == FolderFile then words[MainTreeRootNodeIndex]
          else if fileType.value == MessageFile then words[MessageTreeRootNodeIndex]
          else 0;
        Ok(DbxHeader(fileType.value, words[FileInfoLengthIndex], words[DeletedItemsIndex], folderCount, mainTree))
  }

  /**
   * The constructor as the source runs it: classify, run the magic check whose
   * warnings are discarded, then read the words.
   */
  method ReadHeader(headerBytes: Option<seq<byte>>) returns (r: Result<DbxHeader, Error>, warnings: seq<nat>)
    ensures r == NewHeader(headerBytes)
    ensures r.Ok? && headerBytes.Some? ==> forall i: nat :: i in warnings <==> Mismatch(headerBytes.value, i)
  {
    warnings := [];
    if headerBytes.None? {
      return Ok(DbxHeader(Unknown, 0, 0, 0, 0)), warnings;
    }
    var bytes := headerBytes.value;
    var fileType := GetFileType(bytes);
    if fileType.Err? {
      return Err(fileType.error), warnings;
    }
    var check := CheckInitialBytes(bytes);
    if check.Err? {
      return Err(check.error), warnings;
    }
    warnings := check.value;
    r := NewHeader(headerBytes);
  }

  /** The header size DbxFile uses, 0x24bc bytes, always decodes. */
  const HeaderSize: nat := 0x24bc

  lemma HeaderSizeDecodes(bytes: seq<byte>)
    requires |bytes| == HeaderSize
    ensures NewHeader(Some(bytes)).Ok?
  {
  }

  /**
   * The magic check never changes the header: altering any checked byte that
   * is not part of the file type (bytes 0..3 and 8..27) gives the same header.
   */
  lemma MagicIgnored(bytes: seq<byte>, i: nat, v: byte)
    requires i < |bytes| && i < |CheckBytes| && !(4 <= i < 8)
    ensures NewHeader(Some(bytes[i := v])) == NewHeader(Some(bytes))
  {
    var b := bytes[i := v];
    assert GetFileType(b) == GetFileType(bytes);
    forall k | 4 * k + 4 <= |bytes| && k >= FileInfoLengthIndex
      ensures Word(b, k) == Word(bytes, k)
    {
      assert b[4 * k..4 * k + 4] == bytes[4 * k..4 * k + 4];
    }
  }
}
