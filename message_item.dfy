/**
 * DbxMessageIndexedItem: the slots of a message record, the message's chunk
 * chain (GetMessageBytes, GetBody) and SetItemValues, which fills a
 * DbxMessage from the record.
 */
module MessageItem {
  import opened Wrappers
  import opened Errors
  import opened ByteCodec
  import opened Text
  import opened IndexedItem
  import opened Segments

  /** Slot numbers of a message record. */
  const Account: nat := 0x1a
  const AnswerId: nat := 0x0A
  const CorrespoindingMessage: nat := 0x04
  const Flags: nat := 0x01
  const HotmailIndex: nat := 0x23
  const Id: nat := 0x07
  const Index: nat := 0x00
  const LineCount: nat := 0x03
  const MessageTime: nat := 0x02
  const OriginalSubject: nat := 0x05
  const Priority: nat := 0x10
  const ReceiptentName: nat := 0x13
  const ReceiptentEmailAddress: nat := 0x14
  const ReceivedTime: nat := 0x12
  const RegistryKey: nat := 0x1b
  const SavedInFolderTime: nat := 0x02
  const Sender: nat := 0x09
  const SenderEmailAddress: nat := 0x0E
  const SenderName: nat := 0x0D
  const Subject: nat := 0x08

  /**
   * The address of the message's first chunk: slot 4, read with the slot's
   * recorded size as the width; 0 when the slot was never filled.
   */
  function ChainHead(rec: Record): (r: Result<nat, Error>)
    requires RecordOk(rec)
    ensures rec.indexes[CorrespoindingMessage] == 0 ==> r == Ok(0)
    ensures rec.indexes[CorrespoindingMessage] != 0 ==>
      r == ToIntegerLimit(rec.body, rec.indexes[CorrespoindingMessage], rec.sizes[CorrespoindingMessage])
  {
    match Size(rec, CorrespoindingMessage)
    case Err(error) => Err(error)
    case Ok(size) => Value(rec, CorrespoindingMessage, size)
  }

  /** The buffers GetMessageBytes builds from the chunks at `address` onwards, starting from `message`. */
  function AssembleFrom(file: seq<byte>, message: seq<byte>, address: nat, visited: set<nat>): Result<seq<byte>, Error>
  {
    var cs :- Chain(file, address, visited, true);
    Ok(Assemble(file, message, cs))
  }

  /**
   * GetMessageBytes as the source computes it. The result is as long as all
   * payloads together, but each reallocation drops the bytes gathered so
   * far: only the last chunk's payload survives, at the end, after zeros.
   */
  function MessageBytes(file: seq<byte>, rec: Record): (r: Result<seq<byte>, Error>)
    requires RecordOk(rec)
    ensures r.Ok? <==> ChainHead(rec).Ok? && Chain(file, ChainHead(rec).value, {}, true).Ok?
    ensures r.Ok? ==>
      var cs := Chain(file, ChainHead(rec).value, {}, true).value;
      && |r.value| == TotalLength(cs)
      && (cs == [] ==> r.value == [])
      && (cs != [] ==> r.value == Zeros<byte>(TotalLength(cs[..|cs| - 1]), 0) + Data(file, cs[|cs| - 1]))
    ensures r.Err? ==> r.error in {WrongMarker, OutOfRange, Cyclic}
  {
    var head := ChainHead(rec);
    if head.Err? then Err(head.error)
    else
      var chain := Chain(file, head.value, {}, true);
      if chain.Err? then Err(chain.error)
      else if chain.value == [] then Ok([])
      else
        AssembleShape(file, [], chain.value);
        Ok(Assemble(file, [], chain.value))
  }

  /** The header word `k` of the chunk at `address`, as Bytes.ToInteger reads it from the copied header. */
  lemma HeaderWords(file: seq<byte>, address: nat)
    requires address + ChunkHeaderSize <= |file|
    ensures forall k :: 0 <= k < 4 ==>
      ToInteger(file[address..address + ChunkHeaderSize], 4 * k) == Ok(HeaderWord(file, address, k))
  {
    var header := file[address..address + ChunkHeaderSize];
    forall k | 0 <= k < 4
      ensures ToInteger(header, 4 * k) == Ok(HeaderWord(file, address, k))
    {
      assert forall j :: 4 * k <= j < 4 * k + 4 ==> header[j] == file[address + j];
      assert header[4 * k..4 * k + 4] == file[address + 4 * k..address + 4 * k + 4];
    }
  }

  /**
   * The chunk header the loops of GetBody and GetMessageBytes read: the
   * 16 bytes at `address` copied out, the marker compared when
   * `checkMarker` is set, the length and next address taken; a payload
   * running past the file fails as the copy or the decoding of it would.
   */
  method ReadChunkHeader(fileBytes: seq<byte>, address: nat, checkMarker: bool) returns (r: Result<Chunk, Error>)
    ensures r == ReadChunk(fileBytes, address, checkMarker)
  {
    if address + ChunkHeaderSize > |fileBytes| {
      return Err(OutOfRange);
    }
    var headerBytes := fileBytes[address..address + ChunkHeaderSize];
    HeaderWords(fileBytes, address);
    if checkMarker {
      var objectMarker := ToInteger(headerBytes, 0).value;
      if objectMarker != address {
        return Err(WrongMarker);
      }
    }
    var length := ToInteger(headerBytes, 8).value;
    var next := ToInteger(headerBytes, 12).value;
    if address + ChunkHeaderSize + length > |fileBytes| {
      return Err(OutOfRange);
    }
    return Ok(Chunk(address, length, next));
  }

  /**
   * One turn of GetMessageBytes' loop: a revisit or an unreadable chunk ends
   * it with that error; a readable chunk grows the buffer and moves on.
   */
  lemma AssembleStep(file: seq<byte>, message: seq<byte>, address: nat, visited: set<nat>)
    requires address != 0
    ensures address in visited ==> AssembleFrom(file, message, address, visited) == Err(Cyclic)
    ensures address !in visited && ReadChunk(file, address, true).Err? ==>
      AssembleFrom(file, message, address, visited) == Err(ReadChunk(file, address, true).error)
    ensures address !in visited && ReadChunk(file, address, true).Ok? ==>
      var c := ReadChunk(file, address, true).value;
      AssembleFrom(file, message, address, visited)
        == AssembleFrom(file, Grow(message, Data(file, c)), c.next, visited + {address})
  {
    ChainStep(file, address, visited, true);
    if address !in visited && ReadChunk(file, address, true).Ok? {
      var c := ReadChunk(file, address, true).value;
      var rest := Chain(file, c.next, visited + {address}, true);
      if rest.Ok? {
        assert ([c] + rest.value)[1..] == rest.value;
      }
    }
  }

  /** GetMessageBytes: walks the chain from slot 4, reallocating the buffer for each chunk. */
  method GetMessageBytes(item: DbxIndexedItem) returns (r: Result<seq<byte>, Error>)
    requires item.Valid()
    ensures r == MessageBytes(item.fileBytes, item.Snapshot())
  {
    var message: seq<byte> := [];
    var size := item.GetSize(CorrespoindingMessage).value;
    var head := item.GetValue(CorrespoindingMessage, size);
    if head.Err? {
      return Err(head.error);
    }
    var address: nat := head.value;
    var fileBytes := item.fileBytes;
    var visited: set<nat> := {};
    while address != 0
      invariant AssembleFrom(fileBytes, message, address, visited) == MessageBytes(fileBytes, item.Snapshot())
      decreases Unvisited(fileBytes, visited)
    {
      AssembleStep(fileBytes, message, address, visited);
      if address in visited {
        return Err(Cyclic);
      }
      var chunk := ReadChunkHeader(fileBytes, address, true);
      if chunk.Err? {
        return Err(chunk.error);
      }
      var c := chunk.value;
      var segment := address + ChunkHeaderSize;
      var currentSize := |message|;
      var newMessage := Zeros<byte>(currentSize, 0) + fileBytes[segment..segment + c.length];
      assert newMessage == Grow(message, Data(fileBytes, c));
      message := newMessage;
      assert address in Unvisited(fileBytes, visited) - Unvisited(fileBytes, visited + {address});
      visited := visited + {address};
      address := c.next;
    }
    return Ok(message);
  }

  /** The encoding GetStringDirect chooses for a chunk's payload. */
  function SegmentEncoding(codec: TextCodec, preferred: Option<Encoding>, file: seq<byte>, c: Chunk): Encoding
    requires Fits(file, c)
  {
    ChooseEncoding(codec.detect(Data(file, c)), preferred)
  }

  /** A chunk's payload decoded. */
  function SegmentText(codec: TextCodec, preferred: Option<Encoding>, file: seq<byte>, c: Chunk): string
    requires Fits(file, c)
  {
    codec.decode(SegmentEncoding(codec, preferred, file, c), Data(file, c))
  }

  /** The decoded payloads of `cs`, one after the other. */
  function Texts(codec: TextCodec, preferred: Option<Encoding>, file: seq<byte>, cs: seq<Chunk>): string
    requires forall i :: 0 <= i < |cs| ==> Fits(file, cs[i])
    decreases cs
  {
    if cs == [] then "" else SegmentText(codec, preferred, file, cs[0]) + Texts(codec, preferred, file, cs[1..])
  }

  /** The texts of two runs of chunks, read one after the other, are the two texts joined. */
  lemma {:induction false} TextsAppend(codec: TextCodec, preferred: Option<Encoding>, file: seq<byte>,
                                       cs1: seq<Chunk>, cs2: seq<Chunk>)
    requires forall i :: 0 <= i < |cs1| ==> Fits(file, cs1[i])
    requires forall i :: 0 <= i < |cs2| ==> Fits(file, cs2[i])
    ensures forall i :: 0 <= i < |cs1 + cs2| ==> Fits(file, (cs1 + cs2)[i])
    ensures Texts(codec, preferred, file, cs1 + cs2) == Texts(codec, preferred, file, cs1) + Texts(codec, preferred, file, cs2)
    decreases cs1
  {
    if cs1 == [] {
      assert cs1 + cs2 == cs2;
    } else {
      TextsAppend(codec, preferred, file, cs1[1..], cs2);
      assert (cs1 + cs2)[1..] == cs1[1..] + cs2;
    }
  }

  /** The joined text is the texts before chunk i, chunk i's own text, then the texts after it. */
  lemma TextsSplit(codec: TextCodec, preferred: Option<Encoding>, file: seq<byte>, cs: seq<Chunk>, i: nat)
    requires forall k :: 0 <= k < |cs| ==> Fits(file, cs[k])
    requires i < |cs|
    ensures Texts(codec, preferred, file, cs) ==
      Texts(codec, preferred, file, cs[..i]) + SegmentText(codec, preferred, file, cs[i]) + Texts(codec, preferred, file, cs[i + 1..])
  {
    assert cs == cs[..i] + cs[i..];
    TextsAppend(codec, preferred, file, cs[..i], cs[i..]);
    assert cs[i..][1..] == cs[i + 1..];
  }

  /** LastEncoding after the payloads of `cs` are decoded: the last chunk's encoding, or `last` for no chunks. */
  function EncodingAfter(codec: TextCodec, preferred: Option<Encoding>, file: seq<byte>, last: Option<Encoding>,
                         cs: seq<Chunk>): Option<Encoding>
    requires forall i :: 0 <= i < |cs| ==> Fits(file, cs[i])
  {
    if cs == [] then last else Some(SegmentEncoding(codec, preferred, file, cs[|cs| - 1]))
  }

  /** GetBody from the chunk at `address`, with `built` gathered so far and `last` as LastEncoding. */
  function BodyFrom(codec: TextCodec, preferred: Option<Encoding>, file: seq<byte>, built: string,
                    last: Option<Encoding>, address: nat, visited: set<nat>): Result<(string, Option<Encoding>), Error>
  {
    var cs :- Chain(file, address, visited, true);
    Ok((built + Texts(codec, preferred, file, cs), EncodingAfter(codec, preferred, file, last, cs)))
  }

  /**
   * GetBody: the decoded payloads of the message's chunks joined in chain
   * order, with the encoding of the last one as the new LastEncoding.
   */
  function Body(codec: TextCodec, preferred: Option<Encoding>, last: Option<Encoding>, file: seq<byte>,
                rec: Record): (r: Result<(string, Option<Encoding>), Error>)
    requires RecordOk(rec)
    ensures r.Ok? <==> ChainHead(rec).Ok? && Chain(file, ChainHead(rec).value, {}, true).Ok?
    ensures r.Ok? ==>
      var cs := Chain(file, ChainHead(rec).value, {}, true).value;
      && r.value.0 == Texts(codec, preferred, file, cs)
      && (cs == [] ==> r.value == ("", last))
      && (cs != [] ==> r.value.1 == Some(SegmentEncoding(codec, preferred, file, cs[|cs| - 1])))
  {
    var head :- ChainHead(rec);
    BodyFrom(codec, preferred, file, "", last, head, {})
  }

  /** The text and LastEncoding after a chunk and then the chunks `cs`. */
  lemma BodyCons(codec: TextCodec, preferred: Option<Encoding>, file: seq<byte>, built: string,
                 last: Option<Encoding>, c: Chunk, cs: seq<Chunk>)
    requires Fits(file, c) && forall i :: 0 <= i < |cs| ==> Fits(file, cs[i])
    ensures forall i :: 0 <= i < |[c] + cs| ==> Fits(file, ([c] + cs)[i])
    ensures built + Texts(codec, preferred, file, [c] + cs)
      == (built + SegmentText(codec, preferred, file, c)) + Texts(codec, preferred, file, cs)
    ensures EncodingAfter(codec, preferred, file, last, [c] + cs)
      == EncodingAfter(codec, preferred, file, Some(SegmentEncoding(codec, preferred, file, c)), cs)
  {
    var ccs := [c] + cs;
    assert forall i :: 0 < i < |ccs| ==> ccs[i] == cs[i - 1];
    assert ccs[1..] == cs;
    assert ccs[0] == c;
    if cs != [] {
      assert ccs[|ccs| - 1] == cs[|cs| - 1];
    }
  }

  /**
   * One turn of GetBody's loop: a revisit or an unreadable chunk ends it with
   * that error; a readable chunk is decoded and appended, and its encoding
   * becomes LastEncoding.
   */
  lemma BodyStep(codec: TextCodec, preferred: Option<Encoding>, file: seq<byte>, built: string,
                 last: Option<Encoding>, address: nat, visited: set<nat>)
    requires address != 0
    ensures address in visited ==> BodyFrom(codec, preferred, file, built, last, address, visited) == Err(Cyclic)
    ensures address !in visited && ReadChunk(file, address, true).Err? ==>
      BodyFrom(codec, preferred, file, built, last, address, visited) == Err(ReadChunk(file, address, true).error)
    ensures address !in visited && ReadChunk(file, address, true).Ok? ==>
      var c := ReadChunk(file, address, true).value;
      BodyFrom(codec, preferred, file, built, last, address, visited) ==
      BodyFrom(codec, preferred, file, built + SegmentText(codec, preferred, file, c),
               Some(SegmentEncoding(codec, preferred, file, c)), c.next, visited + {address})
  {
    ChainStep(file, address, visited, true);
    if address !in visited && ReadChunk(file, address, true).Ok? {
      var c := ReadChunk(file, address, true).value;
      var rest := Chain(file, c.next, visited + {address}, true);
      if rest.Ok? {
        BodyCons(codec, preferred, file, built, last, c, rest.value);
      }
    }
  }

  /** GetBody: walks the chain from slot 4, appending each decoded payload. */
  method GetBody(item: DbxIndexedItem) returns (r: Result<string, Error>)
    requires item.Valid()
    modifies item`lastEncoding
    ensures var b := Body(item.codec, item.preferredEncoding, old(item.lastEncoding), item.fileBytes, item.Snapshot());
      && (r.Ok? <==> b.Ok?)
      && (b.Ok? ==> r.value == b.value.0 && item.lastEncoding == b.value.1)
      && (b.Err? ==> r.error == b.error)
  {
    var size := item.GetSize(CorrespoindingMessage).value;
    var head := item.GetValue(CorrespoindingMessage, size);
    if head.Err? {
      return Err(head.error);
    }
    var address: nat := head.value;
    var builder: string := "";
    var fileBytes := item.fileBytes;
    var visited: set<nat> := {};
    ghost var body := BodyFrom(item.codec, item.preferredEncoding, fileBytes, "", item.lastEncoding, address, {});
    while address != 0
      invariant BodyFrom(item.codec, item.preferredEncoding, fileBytes, builder, item.lastEncoding, address, visited) == body
      decreases Unvisited(fileBytes, visited)
    {
      ghost var last := item.lastEncoding;
      BodyStep(item.codec, item.preferredEncoding, fileBytes, builder, last, address, visited);
      if address in visited {
        return Err(Cyclic);
      }
      var chunk := ReadChunkHeader(fileBytes, address, true);
      if chunk.Err? {
        return Err(chunk.error);
      }
      var c := chunk.value;
      ghost var bytes := fileBytes[address + ChunkHeaderSize..address + ChunkHeaderSize + c.length];
      ghost var encoding := ChooseEncoding(item.codec.detect(bytes), item.preferredEncoding);
      ghost var text := item.codec.decode(encoding, bytes);
      assert Data(fileBytes, c) == bytes;
      assert SegmentText(item.codec, item.preferredEncoding, fileBytes, c) == text;
      assert SegmentEncoding(item.codec, item.preferredEncoding, fileBytes, c) == encoding;
      assert DecodeSpan(item.codec, item.preferredEncoding, last, Some(fileBytes), address + ChunkHeaderSize, c.length)
        == Ok(Decoded(Some(text), Some(encoding)));
      var section := item.GetStringSpan(Some(fileBytes), address + ChunkHeaderSize, c.length);
      assert section == Ok(Some(text)) && item.lastEncoding == Some(encoding);
      builder := builder + section.value.value;
      assert address in Unvisited(fileBytes, visited) - Unvisited(fileBytes, visited + {address});
      visited := visited + {address};
      address := c.next;
    }
    return Ok(builder);
  }

  /** The fields of a DbxMessage that SetItemValues writes; ReceivedTime is the raw FILETIME value. */
  datatype DbxMessage = DbxMessage(
    senderName: Option<string>,
    senderEmailAddress: Option<string>,
    receivedTime: nat,
    subject: Option<string>,
    receiptentName: Option<string>,
    receiptentEmailAddress: Option<string>,
    message: seq<byte>,
    encoding: Option<Encoding>)

  /** A message as `new DbxMessage()` leaves it. */
  const EmptyMessage: DbxMessage := DbxMessage(None, None, 0, None, None, None, [], None)

  /**
   * SetItemValues on a message: the strings are read in the source's order,
   * each updating LastEncoding; a blank recipient address is replaced by the
   * account string; then the message bytes; the final LastEncoding is the
   * message's encoding.
   */
  function DecodeMessage(codec: TextCodec, preferred: Option<Encoding>, last: Option<Encoding>,
                         file: seq<byte>, rec: Record): Result<DbxMessage, Error>
    requires RecordOk(rec)
  {
    var senderName :- StringAt(codec, preferred, last, rec, SenderName);
    var senderEmail :- StringAt(codec, preferred, senderName.last, rec, SenderEmailAddress);
    var rawTime :- ValueLong(rec, ReceivedTime);
    var subject :- StringAt(codec, preferred, senderEmail.last, rec, Subject);
    var name :- StringAt(codec, preferred, subject.last, rec, ReceiptentName);
    var address :- StringAt(codec, preferred, name.last, rec, ReceiptentEmailAddress);
    var recipient :-
      if IsNullOrWhiteSpace(address.text) then StringAt(codec, preferred, address.last, rec, Account)
      else Ok(address);
    var message :- MessageBytes(file, rec);
    Ok(DbxMessage(senderName.text, senderEmail.text, rawTime, subject.text, name.text, recipient.text,
                  message, recipient.last))
  }

  /**
   * What each field of a decoded message holds: the string of its slot (a
   * blank recipient address replaced by the account string), the raw time,
   * the message bytes; decoding fails exactly when one of these reads does.
   * The encoding is the one chosen for the recipient address when that is
   * not blank.
   */
  lemma MessageFields(codec: TextCodec, preferred: Option<Encoding>, last: Option<Encoding>,
                      file: seq<byte>, rec: Record)
    requires RecordOk(rec)
    ensures var r := DecodeMessage(codec, preferred, last, file, rec);
      var address := TextAt(codec, preferred, rec, ReceiptentEmailAddress);
      && (r.Ok? <==>
            && TextAt(codec, preferred, rec, SenderName).Ok?
            && TextAt(codec, preferred, rec, SenderEmailAddress).Ok?
            && ValueLong(rec, ReceivedTime).Ok?
            && TextAt(codec, preferred, rec, Subject).Ok?
            && TextAt(codec, preferred, rec, ReceiptentName).Ok?
            && address.Ok?
            && (IsNullOrWhiteSpace(address.value) ==> TextAt(codec, preferred, rec, Account).Ok?)
            && MessageBytes(file, rec).Ok?)
      && (r.Ok? ==>
            && TextAt(codec, preferred, rec, SenderName) == Ok(r.value.senderName)
            && TextAt(codec, preferred, rec, SenderEmailAddress) == Ok(r.value.senderEmailAddress)
            && ValueLong(rec, ReceivedTime) == Ok(r.value.receivedTime)
            && TextAt(codec, preferred, rec, Subject) == Ok(r.value.subject)
            && TextAt(codec, preferred, rec, ReceiptentName) == Ok(r.value.receiptentName)
            && (!IsNullOrWhiteSpace(address.value) ==>
                  address == Ok(r.value.receiptentEmailAddress)
                  && r.value.encoding == StringAt(codec, preferred, None, rec, ReceiptentEmailAddress).value.last)
            && (IsNullOrWhiteSpace(address.value) ==>
                  TextAt(codec, preferred, rec, Account) == Ok(r.value.receiptentEmailAddress))
            && MessageBytes(file, rec) == Ok(r.value.message))
  {
    var r := DecodeMessage(codec, preferred, last, file, rec);
    var d1 := StringAt(codec, preferred, last, rec, SenderName);
    TextAtIs(codec, preferred, last, rec, SenderName);
    if d1.Err? {
      assert r == Err(d1.error);
      return;
    }
    var d2 := StringAt(codec, preferred, d1.value.last, rec, SenderEmailAddress);
    TextAtIs(codec, preferred, d1.value.last, rec, SenderEmailAddress);
    if d2.Err? {
      assert r == Err(d2.error);
      return;
    }
    var time := ValueLong(rec, ReceivedTime);
    if time.Err? {
      assert r == Err(time.error);
      return;
    }
    var d3 := StringAt(codec, preferred, d2.value.last, rec, Subject);
    TextAtIs(codec, preferred, d2.value.last, rec, Subject);
    if d3.Err? {
      assert r == Err(d3.error);
      return;
    }
    var d4 := StringAt(codec, preferred, d3.value.last, rec, ReceiptentName);
    TextAtIs(codec, preferred, d3.value.last, rec, ReceiptentName);
    if d4.Err? {
      assert r == Err(d4.error);
      return;
    }
    var d5 := StringAt(codec, preferred, d4.value.last, rec, ReceiptentEmailAddress);
    TextAtIs(codec, preferred, d4.value.last, rec, ReceiptentEmailAddress);
    StringAtLast(codec, preferred, d4.value.last, None, rec, ReceiptentEmailAddress);
    if d5.Err? {
      assert r == Err(d5.error);
      return;
    }
    var d6 := if IsNullOrWhiteSpace(d5.value.text) then StringAt(codec, preferred, d5.value.last, rec, Account)
      else Ok(d5.value);
    TextAtIs(codec, preferred, d5.value.last, rec, Account);
    if d6.Err? {
      assert r == Err(d6.error);
      return;
    }
    var message := MessageBytes(file, rec);
    if message.Err? {
      assert r == Err(message.error);
      return;
    }
    assert r == Ok(DbxMessage(d1.value.text, d2.value.text, time.value, d3.value.text, d4.value.text,
                              d6.value.text, message.value, d6.value.last));
  }

  /** A string read with any previous LastEncoding succeeds as TextAt does, with TextAt's text. */
  lemma TextAtIs(codec: TextCodec, preferred: Option<Encoding>, last: Option<Encoding>, rec: Record, index: nat)
    requires RecordOk(rec)
    ensures StringAt(codec, preferred, last, rec, index).Ok? <==> TextAt(codec, preferred, rec, index).Ok?
    ensures StringAt(codec, preferred, last, rec, index).Ok? ==>
      TextAt(codec, preferred, rec, index) == Ok(StringAt(codec, preferred, last, rec, index).value.text)
  {
    StringAtLast(codec, preferred, last, None, rec, index);
  }

  /**
   * When every string a decoded message holds is null, its encoding is the
   * LastEncoding it started from: a null read leaves LastEncoding alone.
   */
  lemma NullStringsKeepEncoding(codec: TextCodec, preferred: Option<Encoding>, last: Option<Encoding>,
                                file: seq<byte>, rec: Record)
    requires RecordOk(rec)
    ensures var r := DecodeMessage(codec, preferred, last, file, rec);
      r.Ok? && r.value.senderName.None? && r.value.senderEmailAddress.None? && r.value.subject.None?
      && r.value.receiptentName.None? && r.value.receiptentEmailAddress.None?
      && TextAt(codec, preferred, rec, ReceiptentEmailAddress) == Ok(None)
      ==> r.value.encoding == last
  {
    var r := DecodeMessage(codec, preferred, last, file, rec);
    if r.Err? {
      return;
    }
    var d1 := StringAt(codec, preferred, last, rec, SenderName);
    StringAtLast(codec, preferred, last, None, rec, SenderName);
    assert d1.Ok?;
    var d2 := StringAt(codec, preferred, d1.value.last, rec, SenderEmailAddress);
    StringAtLast(codec, preferred, d1.value.last, None, rec, SenderEmailAddress);
    assert d2.Ok?;
    var d3 := StringAt(codec, preferred, d2.value.last, rec, Subject);
    StringAtLast(codec, preferred, d2.value.last, None, rec, Subject);
    assert d3.Ok?;
    var d4 := StringAt(codec, preferred, d3.value.last, rec, ReceiptentName);
    StringAtLast(codec, preferred, d3.value.last, None, rec, ReceiptentName);
    assert d4.Ok?;
    var d5 := StringAt(codec, preferred, d4.value.last, rec, ReceiptentEmailAddress);
    StringAtLast(codec, preferred, d4.value.last, None, rec, ReceiptentEmailAddress);
    assert d5.Ok?;
    var d6 := if IsNullOrWhiteSpace(d5.value.text) then StringAt(codec, preferred, d5.value.last, rec, Account)
      else Ok(d5.value);
    StringAtLast(codec, preferred, d5.value.last, None, rec, Account);
    assert d6.Ok?;
    assert r.value == DbxMessage(d1.value.text, d2.value.text, ValueLong(rec, ReceivedTime).value, d3.value.text,
                                 d4.value.text, d6.value.text, MessageBytes(file, rec).value, d6.value.last);
  }

  /**
   * SetItemValues(message): a null message is left alone; otherwise every
   * field is decoded as DecodeMessage does and LastEncoding ends as the
   * message's encoding.
   */
  method SetItemValues(item: DbxIndexedItem, message: Option<DbxMessage>) returns (r: Result<Option<DbxMessage>, Error>)
    requires item.Valid()
    modifies item`lastEncoding
    ensures message.None? ==> r == Ok(None) && item.lastEncoding == old(item.lastEncoding)
    ensures message.Some? ==>
      var d := DecodeMessage(item.codec, item.preferredEncoding, old(item.lastEncoding), item.fileBytes, item.Snapshot());
      && (r.Ok? <==> d.Ok?)
      && (d.Ok? ==> r.value == Some(d.value) && item.lastEncoding == d.value.encoding)
      && (d.Err? ==> r.error == d.error)
  {
    if message.None? {
      return Ok(None);
    }
    var senderName := item.GetString(SenderName);
    if senderName.Err? {
      return Err(senderName.error);
    }
    var senderEmailAddress := item.GetString(SenderEmailAddress);
    if senderEmailAddress.Err? {
      return Err(senderEmailAddress.error);
    }
    var rawTime := item.GetValueLong(ReceivedTime);
    if rawTime.Err? {
      return Err(rawTime.error);
    }
    var subject := item.GetString(Subject);
    if subject.Err? {
      return Err(subject.error);
    }
    var receiptentName := item.GetString(ReceiptentName);
    if receiptentName.Err? {
      return Err(receiptentName.error);
    }
    var receiptentEmailAddress := item.GetString(ReceiptentEmailAddress);
    if receiptentEmailAddress.Err? {
      return Err(receiptentEmailAddress.error);
    }
    var recipient := receiptentEmailAddress.value;
    if IsNullOrWhiteSpace(recipient) {
      var account := item.GetString(Account);
      if account.Err? {
        return Err(account.error);
      }
      recipient := account.value;
    }
    var bytes := GetMessageBytes(item);
    if bytes.Err? {
      return Err(bytes.error);
    }
    return Ok(Some(DbxMessage(senderName.value, senderEmailAddress.value, rawTime.value, subject.value,
                              receiptentName.value, recipient, bytes.value, item.lastEncoding)));
  }

  /** `new DbxMessage(fileBytes, address, preferredEncoding)`. */
  function ReadMessage(codec: TextCodec, file: seq<byte>, address: nat, preferred: Option<Encoding>): Result<DbxMessage, Error>
  {
    var rec :- NewRecord(file, address);
    DecodeMessage(codec, preferred, None, file, rec)
  }

  /**
   * The DbxMessage constructor: decodes the record at `address`, sets the
   * preferred encoding, and fills the message from it.
   */
  method NewMessage(fileBytes: seq<byte>, address: nat, preferred: Option<Encoding>, codec: TextCodec)
    returns (r: Result<DbxMessage, Error>)
    ensures r == ReadMessage(codec, fileBytes, address, preferred)
  {
    var index := NewIndexedItem(fileBytes, address, codec);
    if index.Err? {
      return Err(index.error);
    }
    var item := index.value;
    item.preferredEncoding := preferred;
    var message := SetItemValues(item, Some(EmptyMessage));
    if message.Err? {
      return Err(message.error);
    }
    return Ok(message.value.value);
  }
}
