/**
 * DbxMessagesFile: a messages .dbx file read message by message. The
 * cursor of the underlying DbxFile walks the tree's addresses; a record
 * that fails with a DbxException is skipped once and the next one taken.
 * The deleted-items chain is walked from the header's DeletedItems address.
 */
module MessagesFile {
  import opened Wrappers
  import opened Errors
  import opened ByteCodec
  import opened Text
  import opened Header
  import opened Paths
  import opened Segments
  import opened MessageItem
  import opened Files

  /** `new DbxMessage(fileBytes, address, preferred)` as a function of the address. */
  type MessageReader = nat -> Result<DbxMessage, Error>

  function MessageAt(codec: TextCodec, fileBytes: seq<byte>, preferred: Option<Encoding>): MessageReader
  {
    (a: nat) => ReadMessage(codec, fileBytes, a, preferred)
  }

  /** What one GetNextMessage call returns and where the cursor ends. */
  datatype MessageStep = MessageStep(outcome: Result<Option<DbxMessage>, Error>, cursor: nat)

  /**
   * GetNextMessage. Without a tree the count is a null reference. Past the
   * end: null, cursor kept. The message at the cursor is decoded; on a
   * DbxException the cursor is bumped and the next address decoded, which
   * cannot give null, so the retry runs once and a second failure escapes
   * with the cursor on the retried record; any other failure escapes at
   * once. The cursor then moves past the message returned. With
   * `asWritten`, a DbxException at the last address makes the retry index
   * past the end of the list, with the cursor left at the count, since the
   * final increment is never reached; without it that returns null.
   */
  function NextMessage(read: MessageReader, tree: Option<seq<nat>>, cursor: nat, asWritten: bool): (r: MessageStep)
    ensures r.outcome.Ok? && r.outcome.value.Some? ==> tree.Some? && cursor < r.cursor <= |tree.value|
    ensures r.outcome.Ok? ==> cursor <= r.cursor
  {
    match tree
    case None => MessageStep(Err(NullReference), cursor)
    case Some(indexes) =>
      if cursor >= |indexes| then MessageStep(Ok(None), cursor)
      else match read(indexes[cursor])
        case Ok(message) => MessageStep(Ok(Some(message)), cursor + 1)
        case Err(error) =>
          if !IsDbxException(error) then MessageStep(Err(error), cursor)
          else if cursor + 1 >= |indexes| then
            if asWritten then MessageStep(Err(OutOfRange), cursor + 1) else MessageStep(Ok(None), cursor + 2)
          else match read(indexes[cursor + 1])
            case Err(retried) => MessageStep(Err(retried), cursor + 1)
            case Ok(message) => MessageStep(Ok(Some(message)), cursor + 2)
  }

  /**
   * A DbxException on the last record: the source's retry reads the list at
   * its count (an ArgumentOutOfRangeException that nothing catches), and the
   * cursor stays at the count.
   */
  lemma LastRecordAsWritten(read: MessageReader, indexes: seq<nat>)
    requires |indexes| > 0
    requires read(indexes[|indexes| - 1]).Err? && IsDbxException(read(indexes[|indexes| - 1]).error)
    ensures NextMessage(read, Some(indexes), |indexes| - 1, true) == MessageStep(Err(OutOfRange), |indexes|)
    ensures NextMessage(read, Some(indexes), |indexes| - 1, false) == MessageStep(Ok(None), |indexes| + 1)
  {
  }

  /**
   * The messages that repeated GetNextMessage calls return from `cursor` on,
   * until one returns null or fails, and the failure if one does.
   */
  function Messages(read: MessageReader, indexes: seq<nat>, cursor: nat, asWritten: bool)
    : (r: (seq<DbxMessage>, Option<Error>))
    decreases |indexes| - cursor
  {
    var step := NextMessage(read, Some(indexes), cursor, asWritten);
    match step.outcome
    case Err(error) => ([], Some(error))
    case Ok(None) => ([], None)
    case Ok(Some(message)) =>
      var rest := Messages(read, indexes, step.cursor, asWritten);
      ([message] + rest.0, rest.1)
  }

  /** The messages decoded at the addresses from `cursor` on that decode, in order. */
  function Readable(read: MessageReader, indexes: seq<nat>, cursor: nat): seq<DbxMessage>
    decreases |indexes| - cursor
  {
    if cursor >= |indexes| then []
    else
      var here := if read(indexes[cursor]).Ok? then [read(indexes[cursor]).value] else [];
      here + Readable(read, indexes, cursor + 1)
  }

  /**
   * Every record from `cursor` on either decodes or fails with a
   * DbxException, and no two failing records are adjacent; as written the
   * last record must decode as well.
   */
  predicate Isolated(read: MessageReader, indexes: seq<nat>, cursor: nat, asWritten: bool)
  {
    && (forall i :: cursor <= i < |indexes| && read(indexes[i]).Err? ==> IsDbxException(read(indexes[i]).error))
    && (forall i :: cursor <= i < |indexes| - 1 && read(indexes[i]).Err? ==> read(indexes[i + 1]).Ok?)
    && (asWritten && cursor < |indexes| ==> read(indexes[|indexes| - 1]).Ok?)
  }

  /**
   * Skip-one-corrupt-record: when the failing records are isolated, the
   * enumeration returns exactly the messages that decode, in order, and
   * ends without an error.
   */
  lemma {:induction false} SkipsIsolated(read: MessageReader, indexes: seq<nat>, cursor: nat, asWritten: bool)
    requires Isolated(read, indexes, cursor, asWritten)
    ensures Messages(read, indexes, cursor, asWritten) == (Readable(read, indexes, cursor), None)
    decreases |indexes| - cursor
  {
    if cursor < |indexes| {
      var step := NextMessage(read, Some(indexes), cursor, asWritten);
      if read(indexes[cursor]).Ok? {
        SkipsIsolated(read, indexes, cursor + 1, asWritten);
      } else if cursor + 1 < |indexes| {
        assert read(indexes[cursor + 1]).Ok?;
        assert step.cursor == cursor + 2;
        SkipsIsolated(read, indexes, cursor + 2, asWritten);
        assert Readable(read, indexes, cursor) == Readable(read, indexes, cursor + 1);
      } else {
        assert IsDbxException(read(indexes[cursor]).error);
        assert !asWritten;
        assert step == MessageStep(Ok(None), cursor + 2);
        assert Messages(read, indexes, cursor, asWritten) == ([], None);
        assert Readable(read, indexes, cursor + 1) == [];
        assert Readable(read, indexes, cursor) == [];
      }
    }
  }

  /**
   * Two adjacent failing records: the second failure escapes from the retry,
   * and the messages before them are the only ones returned.
   */
  lemma TwoFailuresEscape(read: MessageReader, indexes: seq<nat>, k: nat, asWritten: bool)
    requires k + 1 < |indexes|
    requires read(indexes[k]).Err? && IsDbxException(read(indexes[k]).error) && read(indexes[k + 1]).Err?
    ensures NextMessage(read, Some(indexes), k, asWritten) == MessageStep(Err(read(indexes[k + 1]).error), k + 1)
  {
  }

  /**
   * ListDeletedSegments: the payloads of the deleted-items chain from
   * `address`, each decoded as ASCII. The chunks' own-address words are
   * not checked.
   */
  function DeletedSections(file: seq<byte>, address: nat): Result<seq<string>, Error>
  {
    SectionsFrom(file, [], address, {})
  }

  function Sections(file: seq<byte>, cs: seq<Chunk>): seq<string>
    requires forall i :: 0 <= i < |cs| ==> Fits(file, cs[i])
  {
    if cs == [] then [] else [AsciiDecode(Data(file, cs[0]))] + Sections(file, cs[1..])
  }

  /** One section per chunk, in chain order, each the ASCII text of the chunk's payload. */
  lemma {:induction false} SectionsOfChunks(file: seq<byte>, cs: seq<Chunk>)
    requires forall i :: 0 <= i < |cs| ==> Fits(file, cs[i])
    ensures |Sections(file, cs)| == |cs|
    ensures forall i :: 0 <= i < |cs| ==> Sections(file, cs)[i] == AsciiDecode(Data(file, cs[i]))
  {
    if cs != [] {
      SectionsOfChunks(file, cs[1..]);
      forall i | 0 < i < |cs|
        ensures Sections(file, cs)[i] == AsciiDecode(Data(file, cs[i]))
      {
        assert cs[1..][i - 1] == cs[i];
      }
    }
  }

  /**
   * The deleted-items walk: it succeeds exactly when the chain from the
   * address can be read without checking the chunks' own-address words,
   * and then yields one section per chunk, in order, each the ASCII text of
   * the payload at +0x10 whose length is the word at +8, the next chunk
   * being at the word at +12.
   */
  lemma DeletedShape(file: seq<byte>, address: nat)
    ensures DeletedSections(file, address).Ok? <==> Chain(file, address, {}, false).Ok?
    ensures DeletedSections(file, address).Ok? ==>
      var r := DeletedSections(file, address).value;
      var cs := Chain(file, address, {}, false).value;
      && Linked(cs, address)
      && |r| == |cs|
      && forall i :: 0 <= i < |cs| ==>
        && cs[i].address + ChunkHeaderSize + cs[i].length <= |file|
        && cs[i].length == HeaderWord(file, cs[i].address, 2)
        && cs[i].next == HeaderWord(file, cs[i].address, 3)
        && r[i] == AsciiDecode(file[cs[i].address + ChunkHeaderSize..cs[i].address + ChunkHeaderSize + cs[i].length])
  {
    match Chain(file, address, {}, false)
    case Err(_) =>
    case Ok(cs) =>
      assert [] + Sections(file, cs) == Sections(file, cs);
      SectionsOfChunks(file, cs);
      forall i | 0 <= i < |cs|
        ensures cs[i].length == HeaderWord(file, cs[i].address, 2) && cs[i].next == HeaderWord(file, cs[i].address, 3)
      {
        assert ReadChunk(file, cs[i].address, false) == Ok(cs[i]);
      }
  }

  /** The deleted-items walk from `address`, with `sections` gathered from the chunks at `visited`. */
  function SectionsFrom(file: seq<byte>, sections: seq<string>, address: nat, visited: set<nat>): Result<seq<string>, Error>
  {
    var cs :- Chain(file, address, visited, false);
    Ok(sections + Sections(file, cs))
  }

  class DbxMessagesFile {
    const file: DbxFile
    const codec: TextCodec

    constructor (file: DbxFile, codec: TextCodec)
      ensures this.file == file && this.codec == codec
    {
      this.file := file;
      this.codec := codec;
    }

    function Reader(): MessageReader
      reads file
    {
      MessageAt(codec, file.fileBytes, file.preferredEncoding)
    }

    /**
     * GetNextMessage, with the end of the list checked before the retry
     * decodes the next address.
     */
    method GetNextMessage() returns (r: Result<Option<DbxMessage>, Error>)
      modifies file
      ensures var s := NextMessage(old(Reader()), old(file.tree), old(file.currentIndex), false);
        r == s.outcome && file.currentIndex == s.cursor
      ensures file.tree == old(file.tree) && file.preferredEncoding == old(file.preferredEncoding)
    {
      ghost var step := NextMessage(Reader(), file.tree, file.currentIndex, false);
      if file.tree.None? {
        return Err(NullReference);
      }
      var indexes := file.tree.value;
      var message: Option<DbxMessage> := None;
      if file.currentIndex < |indexes| {
        var inner := GetNextMessageInner();
        if inner.Ok? {
          message := Some(inner.value);
        } else if !IsDbxException(inner.error) {
          return Err(inner.error);
        } else {
          var retrying := true;
          while retrying
            invariant file.tree == Some(indexes) && file.preferredEncoding == old(file.preferredEncoding)
            invariant retrying ==> file.currentIndex == old(file.currentIndex) && message.None?
            invariant !retrying ==> file.currentIndex == old(file.currentIndex) + 1
            invariant !retrying && file.currentIndex < |indexes| ==>
              message.Some? && Reader()(indexes[file.currentIndex]) == Ok(message.value)
            invariant !retrying && file.currentIndex >= |indexes| ==> message.None?
            decreases if retrying then 1 else 0
          {
            file.currentIndex := file.currentIndex + 1;
            if file.currentIndex < |indexes| {
              var retried := GetNextMessageInner();
              if retried.Err? {
                return Err(retried.error);
              }
              message := Some(retried.value);
            }
            retrying := message.None? && file.currentIndex < |indexes|;
          }
        }
        file.currentIndex := file.currentIndex + 1;
      }
      return Ok(message);
    }

    /** GetNextMessageInner: the message at the cursor's address. */
    method GetNextMessageInner() returns (r: Result<DbxMessage, Error>)
      requires file.tree.Some? && file.currentIndex < |file.tree.value|
      ensures r == Reader()(file.tree.value[file.currentIndex])
    {
      var address := file.tree.value[file.currentIndex];
      r := NewMessage(file.fileBytes, address, file.preferredEncoding, codec);
    }

    /**
     * ListDeletedSegments: follows the chunk headers from the header's
     * deleted-items address until a next address of 0, collecting each
     * payload decoded as ASCII.
     */
    method ListDeletedSegments() returns (r: Result<seq<string>, Error>)
      ensures r == DeletedSections(file.fileBytes, file.header.deletedItems)
    {
      var fileBytes := file.fileBytes;
      var address: nat := file.header.deletedItems;
      var sections: seq<string> := [];
      var visited: set<nat> := {};
      while address != 0
        invariant SectionsFrom(fileBytes, sections, address, visited) == DeletedSections(file.fileBytes, file.header.deletedItems)
        decreases Unvisited(fileBytes, visited)
      {
        DeletedStep(fileBytes, sections, address, visited);
        if address in visited {
          return Err(Cyclic);
        }
        var chunk := ReadChunkHeader(fileBytes, address, false);
        if chunk.Err? {
          return Err(chunk.error);
        }
        var start := address + ChunkHeaderSize;
        var length := chunk.value.length;
        var section := AsciiDecode(fileBytes[start..start + length]);
        assert section == AsciiDecode(Data(fileBytes, chunk.value));
        sections := sections + [section];
        assert address in Unvisited(fileBytes, visited) - Unvisited(fileBytes, visited + {address});
        visited := visited + {address};
        address := chunk.value.next;
      }
      assert sections + [] == sections;
      return Ok(sections);
    }
  }

  /**
   * One chunk of the deleted-items walk: a revisit is Cyclic, a chunk that
   * cannot be read (a short file) ends it with that error, and otherwise its
   * section is appended and the walk goes on at its next address.
   */
  lemma DeletedStep(file: seq<byte>, sections: seq<string>, address: nat, visited: set<nat>)
    requires address != 0
    ensures address in visited ==> SectionsFrom(file, sections, address, visited) == Err(Cyclic)
    ensures address !in visited && ReadChunk(file, address, false).Err? ==>
      SectionsFrom(file, sections, address, visited) == Err(ReadChunk(file, address, false).error)
    ensures address !in visited && ReadChunk(file, address, false).Ok? ==>
      var c := ReadChunk(file, address, false).value;
      SectionsFrom(file, sections, address, visited)
        == SectionsFrom(file, sections + [AsciiDecode(Data(file, c))], c.next, visited + {address})
  {
    ChainStep(file, address, visited, false);
    if address !in visited && ReadChunk(file, address, false).Ok? {
      var c := ReadChunk(file, address, false).value;
      var rest := Chain(file, c.next, visited + {address}, false);
      if rest.Ok? {
        assert ([c] + rest.value)[1..] == rest.value;
        assert sections + ([AsciiDecode(Data(file, c))] + Sections(file, rest.value))
          == (sections + [AsciiDecode(Data(file, c))]) + Sections(file, rest.value);
      }
    }
  }

  /**
   * The DbxMessagesFile constructor: the DbxFile checks, the preferred
   * encoding, and the tree, read only when the header says MessageFile.
   */
  method NewMessagesFile(fs: FileSystem, filePath: string, preferred: Option<Encoding>,
                         codec: TextCodec, readTree: TreeReader) returns (r: Result<DbxMessagesFile, Error>)
    ensures r.Ok? <==> OpenBytes(fs, filePath).Ok?
    ensures r.Err? ==> r.error == OpenBytes(fs, filePath).error
    ensures r.Ok? ==>
      var f := r.value;
      && fresh(f) && fresh(f.file)
      && f.codec == codec
      && f.file.fileBytes == OpenBytes(fs, filePath).value && f.file.folderPath == filePath
      && f.file.currentIndex == 0 && f.file.preferredEncoding == preferred
      && (f.file.header.fileType == MessageFile <==> f.file.tree.Some?)
      && (f.file.tree.Some? ==> f.file.tree.value == readTree(f.file.fileBytes, f.file.header.mainTreeAddress))
  {
    var made := NewFile(fs, filePath);
    if made.Err? {
      return Err(made.error);
    }
    var file := made.value;
    var messagesFile := new DbxMessagesFile(file, codec);
    file.preferredEncoding := preferred;
    if file.header.fileType == MessageFile {
      file.ReadTree(readTree);
    }
    return Ok(messagesFile);
  }
}
