/**
 * DbxFolderIndexedItem: the slots of a folder record, and SetItemValues,
 * which copies the folder's id, parent id, name and file name out of the
 * record. The folder itself is a value here (see the Folder module).
 */
module FolderItem {
  import opened Wrappers
  import opened Errors
  import opened ByteCodec
  import opened Text
  import opened IndexedItem

  /** Slot numbers of a folder record. */
  const FileName: nat := 0x03
  const Flags: nat := 0x06
  const Id: nat := 0x00
  const Index: nat := 0x09
  const Name: nat := 0x02
  const ParentId: nat := 0x01

  /**
   * A folder: the address of its record, the four fields the record
   * supplies, and the children gathered by GetChildren.
   */
  datatype DbxFolder = DbxFolder(
    fileAddress: nat,
    folderId: nat,
    folderParentId: nat,
    folderName: Option<string>,
    folderFileName: Option<string>,
    children: seq<DbxFolder>)

  /**
   * SetItemValues on a folder: id and parent id are three-byte values,
   * name and file name are strings, read in that order.
   */
  function DecodeFolder(codec: TextCodec, preferred: Option<Encoding>, last: Option<Encoding>,
                        rec: Record, folder: DbxFolder): Result<DbxFolder, Error>
    requires RecordOk(rec)
  {
    var id :- Value(rec, Id, 3);
    var parentId :- Value(rec, ParentId, 3);
    var name :- StringAt(codec, preferred, last, rec, Name);
    var fileName :- StringAt(codec, preferred, name.last, rec, FileName);
    Ok(folder.(folderId := id, folderParentId := parentId, folderName := name.text, folderFileName := fileName.text))
  }

  /**
   * A decoded folder takes its id from slot 0, its parent id from slot 1,
   * its name from slot 2 and its file name from slot 3; nothing else about
   * the folder changes, and decoding fails exactly when one of the reads does.
   */
  lemma FolderFields(codec: TextCodec, preferred: Option<Encoding>, last: Option<Encoding>,
                     rec: Record, folder: DbxFolder)
    requires RecordOk(rec)
    ensures var r := DecodeFolder(codec, preferred, last, rec, folder);
      && (r.Ok? <==>
            Value(rec, Id, 3).Ok? && Value(rec, ParentId, 3).Ok?
            && TextAt(codec, preferred, rec, Name).Ok? && TextAt(codec, preferred, rec, FileName).Ok?)
      && (r.Ok? ==>
            && Value(rec, Id, 3) == Ok(r.value.folderId)
            && Value(rec, ParentId, 3) == Ok(r.value.folderParentId)
            && TextAt(codec, preferred, rec, Name) == Ok(r.value.folderName)
            && TextAt(codec, preferred, rec, FileName) == Ok(r.value.folderFileName)
            && r.value.fileAddress == folder.fileAddress
            && r.value.children == folder.children)
  {
    StringAtLast(codec, preferred, last, None, rec, Name);
    var name := StringAt(codec, preferred, last, rec, Name);
    if name.Ok? {
      StringAtLast(codec, preferred, name.value.last, None, rec, FileName);
    }
  }

  /**
   * SetItemValues(folder, address): a null folder is left alone; otherwise
   * the folder gets the four decoded fields.
   */
  method SetItemValues(item: DbxIndexedItem, folder: Option<DbxFolder>) returns (r: Result<Option<DbxFolder>, Error>)
    requires item.Valid()
    modifies item`lastEncoding
    ensures folder.None? ==> r == Ok(None) && item.lastEncoding == old(item.lastEncoding)
    ensures folder.Some? ==>
      var d := DecodeFolder(item.codec, item.preferredEncoding, old(item.lastEncoding), item.Snapshot(), folder.value);
      && (r.Ok? <==> d.Ok?)
      && (d.Ok? ==> r.value == Some(d.value))
      && (d.Err? ==> r.error == d.error)
  {
    if folder.None? {
      return Ok(None);
    }
    var id := item.GetValue(Id, 3);
    if id.Err? {
      return Err(id.error);
    }
    var parentId := item.GetValue(ParentId, 3);
    if parentId.Err? {
      return Err(parentId.error);
    }
    var name := item.GetString(Name);
    if name.Err? {
      return Err(name.error);
    }
    var fileName := item.GetString(FileName);
    if fileName.Err? {
      return Err(fileName.error);
    }
    return Ok(Some(folder.value.(folderId := id.value, folderParentId := parentId.value,
                                 folderName := name.value, folderFileName := fileName.value)));
  }

  /**
   * The record of the indexed-item test, a folder record at address 0: a
   * twelve-byte prologue and a 56-byte body, written in rows of at most ten bytes.
   */
  const FixturePrologue: seq<byte> := [0x00, 0x00, 0x00, 0x00, 0x38, 0x00, 0x00, 0x00, 0x00, 0x00] + [0x04, 0x01]
  const FixtureBody0: seq<byte> := [0x80, 0x11, 0x00, 0x00, 0x02, 0x00, 0x00, 0x00, 0x05, 0x1d]
  const FixtureBody1: seq<byte> := [0x00, 0x00, 0x86, 0x29, 0x00, 0x04, 0x64, 0x69, 0x73, 0x63]
  const FixtureBody2: seq<byte> := [0x75, 0x73, 0x73, 0x69, 0x6f, 0x6e, 0x2e, 0x66, 0x61, 0x73]
  const FixtureBody3: seq<byte> := [0x74, 0x61, 0x6E, 0x64, 0x66, 0x75, 0x72, 0x69, 0x75, 0x73]
  const FixtureBody4: seq<byte> := [0x2e, 0x63, 0x6f, 0x6d, 0x00, 0x30, 0x30, 0x30, 0x30, 0x30]
  const FixtureBody5: seq<byte> := [0x30, 0x31, 0x37, 0x00, 0x00, 0x00]
  const FixtureBody: seq<byte> :=
    FixtureBody0 + FixtureBody1 + FixtureBody2 + FixtureBody3 + FixtureBody4 + FixtureBody5
  const IndexedInfoFixture: seq<byte> := FixturePrologue + FixtureBody

  /** The 28 name bytes of the fixture, body offsets 16 to 43. */
  const FixtureName: seq<byte> := FixtureBody1[6..] + FixtureBody2 + FixtureBody3 + FixtureBody4[..4]

  /** The fixture's prologue: marker 0, a 56-byte body, four entries. */
  lemma FixtureHead()
    ensures |IndexedInfoFixture| == 68 && IndexedInfoFixture[12..68] == FixtureBody
    ensures Marker(IndexedInfoFixture, 0) == 0 && BodyLength(IndexedInfoFixture, 0) == 56
    ensures EntryCount(IndexedInfoFixture, 0) == 4
  {
    var file := IndexedInfoFixture;
    assert file[0..4] == [0, 0, 0, 0];
    assert file[4..8] == [0x38, 0, 0, 0];
    assert LittleEndian([0, 0, 0, 0]) == 0;
  }

  /** The fixture's four entries: slot 0 direct at offset 1, slot 2 at 16, slot 5 at 45, slot 6 direct. */
  lemma FixtureEntries()
    ensures |FixtureBody| == 56
    ensures EntryOk(FixtureBody, 0) && SlotOf(FixtureBody[0]) == 0 && IsDirect(FixtureBody[0])
    ensures EntryOffset(FixtureBody, 4, 0) == 1
    ensures EntryOk(FixtureBody, 1) && SlotOf(FixtureBody[4]) == 2 && !IsDirect(FixtureBody[4])
    ensures EntryOffset(FixtureBody, 4, 1) == 16
    ensures EntryOk(FixtureBody, 2) && SlotOf(FixtureBody[8]) == 5 && !IsDirect(FixtureBody[8])
    ensures EntryOffset(FixtureBody, 4, 2) == 45
    ensures EntryOk(FixtureBody, 3) && SlotOf(FixtureBody[12]) == 6 && IsDirect(FixtureBody[12])
  {
    var body := FixtureBody;
    assert |body| == 56;
    assert body[0] == 0x80 && body[4] == 0x02 && body[8] == 0x05 && body[12] == 0x86;
    TopBit(body[0]);
    TopBit(body[4]);
    TopBit(body[8]);
    TopBit(body[12]);
    assert body[5..7] == [0, 0];
    assert body[9..11] == [0x1d, 0];
    assert LittleEndian([0, 0]) == 0;
  }

  /** The table the fixture's four entries give: slot 0 direct, slots 2 and 5 indirect, slot 6 direct. */
  lemma FixtureTable()
    ensures var t := Fill(FixtureBody, 4, Table(Zeros<nat>(MaximumIndexes, 0), Zeros<int>(MaximumIndexes, 0), false, 0), 4);
      t.Ok? && t.value.indexes[0] == 1 && t.value.indexes[1] == 0 && t.value.indexes[2] == 16 && t.value.sizes[2] == 29
  {
    var body := FixtureBody;
    FixtureEntries();
    var t0 := Table(Zeros<nat>(MaximumIndexes, 0), Zeros<int>(MaximumIndexes, 0), false, 0);
    var t1 := Table(t0.indexes[0 := 1], t0.sizes[0 := DefaultSize], false, 0);
    assert Fill(body, 4, t0, 1) == Step(body, 4, t0, 0) == Ok(t1);
    var t2 := Table(t1.indexes[2 := 16], t1.sizes[2 := DefaultSize], true, 2);
    assert Fill(body, 4, t0, 2) == Step(body, 4, t1, 1) == Ok(t2);
    var ix3 := t2.indexes[5 := 45];
    var t3 := Table(ix3, t2.sizes[5 := DefaultSize][2 := 45 - 16], true, 5);
    assert Fill(body, 4, t0, 3) == Step(body, 4, t2, 2) == Ok(t3);
  }

  /** ASCII decoding works byte by byte. */
  lemma AsciiAppend(a: seq<byte>, b: seq<byte>)
    ensures AsciiDecode(a + b) == AsciiDecode(a) + AsciiDecode(b)
  {
  }

  /** The fixture's name, decoded row by row. */
  lemma FixtureNameRows()
    ensures AsciiDecode(FixtureBody1[6..]) == "disc"
    ensures AsciiDecode(FixtureBody2) == "ussion.fas"
    ensures AsciiDecode(FixtureBody3) == "tandfurius"
    ensures AsciiDecode(FixtureBody4[..4]) == ".com"
  {
    var r0, r1, r2, r3 := AsciiDecode(FixtureBody1[6..]), AsciiDecode(FixtureBody2), AsciiDecode(FixtureBody3), AsciiDecode(FixtureBody4[..4]);
    assert r0[0] == 'd' && r0[1] == 'i' && r0[2] == 's' && r0[3] == 'c';
    assert r1[0] == 'u' && r1[1] == 's' && r1[2] == 's' && r1[3] == 'i' && r1[4] == 'o';
    assert r1[5] == 'n' && r1[6] == '.' && r1[7] == 'f' && r1[8] == 'a' && r1[9] == 's';
    assert r2[0] == 't' && r2[1] == 'a' && r2[2] == 'n' && r2[3] == 'd' && r2[4] == 'f';
    assert r2[5] == 'u' && r2[6] == 'r' && r2[7] == 'i' && r2[8] == 'u' && r2[9] == 's';
    assert r3[0] == '.' && r3[1] == 'c' && r3[2] == 'o' && r3[3] == 'm';
  }

  /** The fixture's name: the 28 ASCII bytes at body offset 16. */
  lemma FixtureNameText()
    ensures AsciiDecode(FixtureName) == "discussion.fastandfurius.com"
  {
    var n0, n1, n2, n3 := FixtureBody1[6..], FixtureBody2, FixtureBody3, FixtureBody4[..4];
    FixtureNameRows();
    calc {
      AsciiDecode(FixtureName);
      AsciiDecode(n0 + n1 + n2 + n3);
      { AsciiAppend(n0 + n1 + n2, n3); }
      AsciiDecode(n0 + n1 + n2) + ".com";
      { AsciiAppend(n0 + n1, n2); }
      AsciiDecode(n0 + n1) + "tandfurius" + ".com";
      { AsciiAppend(n0, n1); }
      "disc" + "ussion.fas" + "tandfurius" + ".com";
    }
    assert "disc" + "ussion.fas" == "discussion.fas";
    assert "discussion.fas" + "tandfurius" == "discussion.fastandfurius";
    assert "discussion.fastandfurius" + ".com" == "discussion.fastandfurius.com";
  }

  /** No byte of `s` is zero. */
  predicate NoZero(s: seq<byte>)
  {
    forall k :: 0 <= k < |s| ==> s[k] != 0
  }

  lemma NoZeroAppend(a: seq<byte>, b: seq<byte>)
    requires NoZero(a) && NoZero(b)
    ensures NoZero(a + b)
  {
    forall k | 0 <= k < |a + b|
      ensures (a + b)[k] != 0
    {
      if k >= |a| {
        assert (a + b)[k] == b[k - |a|];
      }
    }
  }

  /** The name bytes lie at body offsets 16 to 43 and the zero at 44 ends them. */
  lemma FixtureNameBytes()
    ensures FixtureBody[16..44] == FixtureName
    ensures Terminator(FixtureBody, 16) == Ok(44)
  {
    var n0, n1, n2, n3 := FixtureBody1[6..], FixtureBody2, FixtureBody3, FixtureBody4[..4];
    var before, after := FixtureBody0 + FixtureBody1[..6], FixtureBody4[4..] + FixtureBody5;
    assert FixtureBody1 == FixtureBody1[..6] + n0;
    assert FixtureBody4 == n3 + FixtureBody4[4..];
    assert FixtureBody == before + FixtureName + after;
    var body := FixtureBody;
    assert |before| == 16 && |FixtureName| == 28;
    assert body[16..44] == FixtureName;
    assert NoZero(n0) && NoZero(n1) && NoZero(n2) && NoZero(n3);
    NoZeroAppend(n0, n1);
    NoZeroAppend(n0 + n1, n2);
    NoZeroAppend(n0 + n1 + n2, n3);
    forall k | 16 <= k < 44
      ensures body[k] != 0
    {
      assert body[k] == FixtureName[k - 16];
    }
    assert body[44] == after[0] == 0;
    TerminatorFirst(body, 16, 44);
  }

  /** The fixture decodes to its body and the table of its four entries. */
  lemma FixtureRecord()
    ensures NewRecord(IndexedInfoFixture, 0).Ok?
    ensures var rec := NewRecord(IndexedInfoFixture, 0).value;
      && rec.body == FixtureBody
      && rec.indexes[0] == 1 && rec.indexes[1] == 0 && rec.indexes[2] == 16 && rec.sizes[2] == 29
  {
    FixtureHead();
    FixtureTable();
  }

  /** The fields a record with the fixture's body and table holds. */
  lemma FixtureFields(codec: TextCodec, preferred: Option<Encoding>, last: Option<Encoding>, rec: Record)
    requires RecordOk(rec) && rec.body == FixtureBody
    requires rec.indexes[0] == 1 && rec.indexes[1] == 0 && rec.indexes[2] == 16 && rec.sizes[2] == 29
    ensures Value(rec, Id, 3) == Ok(0x11)
    ensures Value(rec, ParentId, 3) == Ok(0)
    ensures Size(rec, Name) == Ok(29)
    ensures StringAt(codec, preferred, last, rec, Name) == DecodeSpan(codec, preferred, last, Some(rec.body), 16, 28)
  {
    FixtureNameBytes();
    assert rec.body[1..4] == FixtureBody0[1..4] == [0x11, 0, 0];
    assert LittleEndian([0x11, 0, 0]) == 0x11;
  }

  /**
   * On the fixture the id is 0x11, the parent id 0, the name slot covers
   * the 28 ASCII bytes of "discussion.fastandfurius.com", and the size of
   * slot 2, closed by the indirect entry for slot 5, is 29.
   */
  lemma IndexedInfo(codec: TextCodec, preferred: Option<Encoding>, last: Option<Encoding>)
    ensures NewRecord(IndexedInfoFixture, 0).Ok?
    ensures var rec := NewRecord(IndexedInfoFixture, 0).value;
      && Value(rec, Id, 3) == Ok(0x11)
      && Value(rec, ParentId, 3) == Ok(0)
      && Size(rec, Name) == Ok(29)
      && rec.body == FixtureBody
      && AsciiDecode(rec.body[16..44]) == "discussion.fastandfurius.com"
      && StringAt(codec, preferred, last, rec, Name) == DecodeSpan(codec, preferred, last, Some(rec.body), 16, 28)
  {
    FixtureRecord();
    FixtureNameBytes();
    FixtureNameText();
    FixtureFields(codec, preferred, last, NewRecord(IndexedInfoFixture, 0).value);
  }
}
