# DbxOutlookExpress decoding engine in Dafny

This project models the core of DbxOutlookExpress, a reader for Outlook
Express `.dbx` mailbox archives, and proves properties of the model. The
whole engine works over a byte buffer that is already loaded, one step at a
time:

- **Header** (`header.dfy`). The file type comes from byte 4. A check of the
  magic bytes only warns. The header words that are read depend on the file
  type.
- **Indexed records** (`indexed_item.dfy`, `legacy_indexed_item.dfy`). A
  record must begin with its own address. Its body is copied out. Up to 0x40
  slots are filled from direct and indirect entries. When a later indirect
  entry appears, the size of the previous indirect slot is patched. Slots are
  read back as little-endian integers or as zero-terminated strings. The older
  decoder of the PST converter keeps offsets only and decodes strings as
  ASCII.
- **Folder and message records** (`folder_item.dfy`, `message_item.dfy`).
  They give the slot numbers and copy fields into a folder or a message.
- **Segment chains** (`segments.dfy`). Chunk headers of 16 bytes are linked
  forward, and the walk ends at a next address of 0. They hold a message's
  bytes and body, and the deleted-items list.
- **Folder hierarchy** (`folder.dfy`). The two `GetChildren` overloads take
  folders out of a flat list, scanning back to front. `SetOrderedIndexes`
  flattens the tree in pre-order.
- **Files and cursors** (`files.dfy`, `folders_file.dfy`,
  `messages_file.dfy`, `dbx_set.dfy`):
  - `DbxFile`'s checks when it opens a file;
  - the `CurrentIndex` cursors of the folders file and of the messages file,
    with the root skip and the retry after one corrupt record;
  - the messages-file names the folders file collects;
  - orphan detection and fresh ids in `DbxSet`.

The support modules are `wrappers.dfy` (Option, Result, Outcome and the
error kinds), `byte_codec.dfy` (little-endian reading), `text.dfy`
(white space, Trim, upper-casing, ASCII decoding, and the charset machinery
as a parameter) and `paths.dfy` (the file system as a value, and the Path
helpers).

Exceptions become `Result` values. `WrongMarker`, `FileMissing` and
`NotDbxExtension` are DbxExceptions; `catch (DbxException)` sites intercept
only those. `OutOfRange` and `NullReference` stand for the runtime
exceptions the code lets escape. Objects whose fields the source updates
become classes:
- DbxFile, DbxFoldersFile, DbxMessagesFile and DbxSet, by composition in
  place of inheritance;
- DbxIndexedItem, with its slot arrays.

Folders and messages are values.

Where the description of the system and the code disagree, the model
follows the code:
- The extension check is ordinal and case-sensitive (".dbx" only).
- DbxFoldersFile and DbxMessagesFile do not reject a file of the wrong type.
  They only skip reading its tree.
- `GetMessageBytes` does not concatenate the segments. Each reallocation
  drops the bytes copied so far, so only the last segment's bytes survive,
  at the end of a buffer whose length is the sum of the payload lengths.
  This is modelled as written: `MessageItem.MessageBytes`,
  `Segments.AssembleShape`.

## Model

| member | source | states |
|---|---|---|
| `ByteCodec.ToIntegerLimit` | DbxOutlookExpressTests/DbxOutlookExpressTests.cs:112-121 | fails exactly when the width is outside 0..4 or the bytes run past the buffer; otherwise the little-endian value of those bytes, below 256^amount |
| `ByteCodec.ToLong` | DbxOutlookExpressTests/DbxOutlookExpressTests.cs:127-136 | fails exactly when eight bytes do not fit; otherwise their little-endian value |
| `ByteCodec.ToIntegerArray` | DbxOutlookExpressTests/DbxOutlookExpressTests.cs:87-106 | one word per whole four bytes, word k being the little-endian value of bytes 4k..4k+3 |
| `ByteCodec.DecodeEncode` | DbxOutlookExpressTests/UnitTests.cs:34-43 | little-endian decoding inverts encoding: encoding a value that fits and decoding it gives the value back |
| `ByteCodec.EncodeDecode` | DbxOutlookExpressTests/UnitTests.cs:49-68 | and the other way round: decoding bytes and re-encoding them at the same width gives the bytes back |
| `ByteCodec.TopBit` | DbxOutlookExpress/DbxIndexedItem.cs:200-202 | bit 7 (counted from the least significant bit) is set exactly for bytes 128..255 |
| `ByteCodec.IntegerFixtures` | DbxOutlookExpressTests/DbxOutlookExpressTests.cs:71-151 | the test vectors: ToInteger gives 0x4002986, ToShort 0x2986, ToLong 0x6964040029860000, ToIntegerLimit(…,4,3) 0x12986 |
| `ByteCodec.ArrayFixtureWords` | DbxOutlookExpressTests/DbxOutlookExpressTests.cs:87-106 | the test vector: 68 bytes give 0x11 words, word 1 being 0x38 |
| `ByteCodec.BitFixtures` | DbxOutlookExpressTests/DbxOutlookExpressTests.cs:51-66 | GetBit is 0-based from the least significant bit: bit 6 is set in 64 and clear in 63 and 128 |
| `Text.TrimIsSlice` | DbxOutlookExpressLibrary/DbxFoldersFile.cs:89-91 | Trim yields a slice of the string with no white space at either end |
| `Text.TrimNotBlank` | DbxOutlookExpressLibrary/DbxFoldersFile.cs:89-97 | a name that is not null or white space stays non-empty after Trim |
| `Text.ToUpperInvariant` | DbxOutlookExpressLibrary/DbxFoldersFile.cs:96 | the same length, each character upper-cased where it is a lower-case Latin-1 letter (a..z and à..þ but for ÷ move down by 0x20, µ becomes U+039C, ÿ becomes U+0178) and kept otherwise |
| `Text.UpperIdempotent` | DbxOutlookExpressLibrary/DbxSet.cs:195 | upper-casing an upper-cased name changes nothing |
| `Text.UpperAppend` | DbxOutlookExpressLibrary/DbxFoldersFile.cs:96 | upper-casing distributes over concatenation |
| `Text.UpperFixture` | DbxOutlookExpressLibrary/DbxFoldersFile.cs:96 | the file name "gelöschte objekte.dbx" is recorded as "GELÖSCHTE OBJEKTE.DBX" |
| `Text.AsciiDecode` | DbxToPstLibrary/DbxIndexedItem.cs:116-117 | one character per byte: the byte itself below 0x80, '?' above it |
| `Paths.DbxExtension` | DbxOutlookExpress/DbxFile.cs:36-38 | the extension equals ".dbx" ordinally exactly when the path ends in ".dbx" |
| `Paths.FileName` | DbxOutlookExpress/DbxFile.cs:58 | the last component: a suffix of the path containing no separator |
| `Paths.Combine` | DbxOutlookExpress/DbxFolder.cs:74 | the combined path ends with the name |
| `Paths.FileNameWithoutExtension` | DbxOutlookExpress/DbxFolder.cs:329 | a prefix of the file name, the whole name when it has no dot |
| `Paths.CombineFileName` | DbxOutlookExpress/DbxFolder.cs:66-74 | the file name of a directory combined with a plain name is that name |
| `Paths.StemAndExtension` | DbxOutlookExpress/DbxFolder.cs:327-329 | a file name is its name without extension followed by its extension |
| `Header.GetFileType` | DbxOutlookExpress/DbxHeader.cs:141-192 | 0xC5 message file, 0xC6 folder file, 0xC7 Pop3uidl, 0x30 9D FE 26 off-line, anything else unknown; a buffer too short for the bytes read fails |
| `Header.FileTypeMarker` | DbxOutlookExpress/DbxHeader.cs:147-157 | a known type comes only from its marker byte, and its marker byte gives it |
| `Header.ConfirmByte` | DbxOutlookExpress/DbxHeader.cs:121-139 | true exactly when the byte matches; reading past the end fails |
| `Header.CheckInitialBytes` | DbxOutlookExpress/DbxHeader.cs:101-119 | the reported positions are exactly the mismatching ones among bytes 0..27 other than byte 4, in increasing order |
| `Header.NewHeader` | DbxOutlookExpress/DbxHeader.cs:37-66 | null gives an all-zero unknown header; otherwise fileInfoLength is word 7 and DeletedItems word 0x12, folder count word 0x31 and tree root word 0x3B (folder file) or 0x39 (message file), and both 0 for any other type |
| `Header.ReadHeader` | DbxOutlookExpress/DbxHeader.cs:37-49 | the constructor as run, magic check included, gives exactly NewHeader's header; the warnings are the mismatching bytes |
| `Header.MagicIgnored` | DbxOutlookExpress/DbxHeader.cs:101-139 | changing any checked magic byte outside bytes 4..7 leaves the header unchanged |
| `Header.HeaderSizeDecodes` | DbxOutlookExpress/DbxFile.cs:42-45 | the 0x24bc-byte header slice always decodes |
| `IndexedItem.EntryOffset` | DbxOutlookExpress/DbxIndexedItem.cs:204-215 | the recorded offset is never 0 (entry position + 1, or 4 * itemsCount + the 16-bit delta) |
| `IndexedItem.Step` | DbxOutlookExpress/DbxIndexedItem.cs:198-225 | one entry succeeds exactly when its byte exists, its slot fits the 0x40 table and an indirect entry has its two delta bytes |
| `IndexedItem.Fill` | DbxOutlookExpress/DbxIndexedItem.cs:198-225 | the tables stay 0x40 long; the only failure is an out-of-range access |
| `IndexedItem.FillSucceeds` | DbxOutlookExpress/DbxIndexedItem.cs:198-225 | the entries decode exactly when each one can |
| `IndexedItem.FillFlags` | DbxOutlookExpress/DbxIndexedItem.cs:195-196 | isIndirect holds exactly when an indirect entry was seen, and lastIndirect names the slot of the last one |
| `IndexedItem.LastEntryWins` | DbxOutlookExpress/DbxIndexedItem.cs:198-215 | a slot holds the offset recorded by the last entry naming it; a slot no entry names keeps its offset and size |
| `IndexedItem.SizeNewest` | DbxOutlookExpress/DbxIndexedItem.cs:301-305 | the newest entry's slot has size 3 |
| `IndexedItem.SizeOlder` | DbxOutlookExpress/DbxIndexedItem.cs:217-223 | an older entry's size is kept until the next indirect entry patches it |
| `IndexedItem.SizeRule` | DbxOutlookExpress/DbxIndexedItem.cs:217-223 | with distinct slots, an indirect slot's size is the distance to the next indirect entry's offset, and every other filled slot, the last indirect one included, has size 3 |
| `IndexedItem.DecodeRecord` | DbxOutlookExpress/DbxIndexedItem.cs:171-226 | WrongMarker exactly when the first word differs from the address; on success the body is the bodyLength bytes after the 12-byte prologue |
| `IndexedItem.DecodedSlot` | DbxOutlookExpress/DbxIndexedItem.cs:198-215 | in a new record a slot is 0 when no entry names it, else the offset of the last entry naming it |
| `IndexedItem.DecodedValue` | DbxOutlookExpress/DbxIndexedItem.cs:257-299 | GetValue (3 bytes) and GetValueLong read 0 for an unfilled slot, else the little-endian bytes at the last entry's offset |
| `IndexedItem.ChooseEncoding` | DbxOutlookExpress/DbxIndexedItem.cs:117-137 | the detected encoding, else the preferred one, else UTF-8 |
| `IndexedItem.DecodeSpan` | DbxOutlookExpress/DbxIndexedItem.cs:107-146 | null buffer or address 0 gives null with LastEncoding untouched; otherwise the span decoded in the chosen encoding, which LastEncoding records; fails exactly when the span leaves the buffer |
| `IndexedItem.Terminator` | DbxOutlookExpress/DbxIndexedItem.cs:76-90 | the first zero byte at or after the start; fails exactly when there is none |
| `IndexedItem.TerminatorFirst` | DbxOutlookExpress/DbxIndexedItem.cs:79-90 | any zero byte with no zero before it is the one found |
| `IndexedItem.FindTerminator` | DbxOutlookExpress/DbxIndexedItem.cs:79-90 | the scan stops at the first zero byte at or after the start, and fails past the end, as Terminator says |
| `IndexedItem.ZeroTerminated` | DbxOutlookExpress/DbxIndexedItem.cs:70-98 | null for address 0; otherwise exactly the bytes from the address up to, not including, the first zero byte |
| `IndexedItem.StringAtLast` | DbxOutlookExpress/DbxIndexedItem.cs:233-240 | a string read does not depend on the previous LastEncoding, and a null one leaves it unchanged |
| `IndexedItem.UnfilledString` | DbxOutlookExpress/DbxIndexedItem.cs:233-240 | a slot no entry fills reads as null |
| `IndexedItem.DbxIndexedItem.Allocate` | DbxOutlookExpress/DbxIndexedItem.cs:40-45 | two fresh zeroed tables of 0x40 slots |
| `IndexedItem.ReadPrologue` | DbxOutlookExpress/DbxIndexedItem.cs:173-186 | a prologue past the file fails; otherwise WrongMarker exactly when word 0 of the 12 copied bytes is not the address, else the body length (word 1) and the entry count (byte 10) |
| `IndexedItem.DbxIndexedItem.SetIndex` | DbxOutlookExpress/DbxIndexedItem.cs:301-305 | the slot gets the offset and size 3; a slot past the table fails and changes nothing |
| `IndexedItem.DbxIndexedItem.SetIndexSize` | DbxOutlookExpress/DbxIndexedItem.cs:307-314 | inside the table the size becomes offset minus the slot's offset; outside nothing changes |
| `IndexedItem.DbxIndexedItem.ReadEntry` | DbxOutlookExpress/DbxIndexedItem.cs:200-223 | one loop turn leaves the tables and flags Step gives |
| `IndexedItem.DbxIndexedItem.ReadEntries` | DbxOutlookExpress/DbxIndexedItem.cs:193-225 | the loop over the entries leaves exactly the offsets and sizes Fill gives from the previous tables, or fails with its error |
| `IndexedItem.DbxIndexedItem.SetIndexes` | DbxOutlookExpress/DbxIndexedItem.cs:171-226 | the item ends holding DecodeRecord's record, or fails with its error |
| `IndexedItem.DbxIndexedItem.GetStringSpan` | DbxOutlookExpress/DbxIndexedItem.cs:107-146 | returns DecodeSpan's text and leaves its LastEncoding |
| `IndexedItem.DbxIndexedItem.GetStringDirect` | DbxOutlookExpress/DbxIndexedItem.cs:70-98 | the scan returns ZeroTerminated's text and LastEncoding |
| `IndexedItem.DbxIndexedItem.GetString` | DbxOutlookExpress/DbxIndexedItem.cs:233-240 | the string of the slot's offset in the body |
| `IndexedItem.NewIndexedItem` | DbxOutlookExpress/DbxIndexedItem.cs:40-48 | the constructor succeeds exactly when the record decodes into fresh tables, and holds that record |
| `FolderItem.FolderFields` | DbxOutlookExpress/DbxFolderIndexedItem.cs:58-67 | FolderId is slot 0, FolderParentId slot 1, FolderName slot 2, FolderFileName slot 3; nothing else changes |
| `FolderItem.SetItemValues` | DbxOutlookExpress/DbxFolderIndexedItem.cs:58-67 | a null folder changes nothing; otherwise the folder DecodeFolder gives |
| `FolderItem.FixtureRecord` | DbxOutlookExpressTests/DbxOutlookExpressTests.cs:232-243 | the fixture decodes at address 0 into a 56-byte body with slots 0, 1 and 2 at 1, 0 and 16 and the name's size 29 |
| `FolderItem.FixtureFields` | DbxOutlookExpressTests/DbxOutlookExpressTests.cs:245-253 | on that record Id is 0x11, ParentId 0, and Name is the 28 bytes at 16 |
| `FolderItem.IndexedInfo` | DbxOutlookExpressTests/DbxOutlookExpressTests.cs:229-254 | the whole test: Id 0x11, ParentId 0, and the name's bytes are the ASCII text discussion.fastandfurius.com |
| `Segments.ReadChunk` | DbxOutlookExpressLibrary/DbxMessageIndexedItem.cs:153-163 | a 16-byte chunk header: WrongMarker exactly when the checked first word is not the address; length word at +8, next at +12, payload inside the file |
| `Segments.Chain` | DbxOutlookExpressLibrary/DbxMessageIndexedItem.cs:151-184 | the chunks followed from the address until next is 0: linked, distinct, each read at its own address; a revisited address is Cyclic |
| `Segments.ChainStep` | DbxOutlookExpressLibrary/DbxMessageIndexedItem.cs:151-184 | one turn of the chunk loop: a revisited address is Cyclic, an unreadable header fails, otherwise the chunk followed by the chain from its next address |
| `Segments.AssembleShape` | DbxOutlookExpressLibrary/DbxMessageIndexedItem.cs:230-236 | the reallocating copy leaves the total length, and zeros before the last payload |
| `MessageItem.ChainHead` | DbxOutlookExpressLibrary/DbxMessageIndexedItem.cs:145-146 | the chain head is slot 4 read with slot 4's recorded size as width, 0 when unfilled |
| `MessageItem.MessageBytes` | DbxOutlookExpressLibrary/DbxMessageIndexedItem.cs:195-243 | fails exactly when the head or the chain does; length is the sum of payload lengths and the last payload ends the buffer |
| `MessageItem.HeaderWords` | DbxOutlookExpressLibrary/DbxMessageIndexedItem.cs:206-216 | ToInteger on the copied header gives the chunk's four words |
| `MessageItem.ReadChunkHeader` | DbxOutlookExpressLibrary/DbxMessageIndexedItem.cs:206-219 | reading the 16 header bytes, checking the marker and taking length and next gives ReadChunk's chunk or error |
| `MessageItem.GetMessageBytes` | DbxOutlookExpressLibrary/DbxMessageIndexedItem.cs:195-243 | the loop returns MessageBytes |
| `MessageItem.AssembleStep` | DbxOutlookExpressLibrary/DbxMessageIndexedItem.cs:204-240 | one turn of the copy loop: a revisited address is Cyclic, an unreadable header fails, otherwise the buffer grows by the chunk's payload and the loop moves to its next address |
| `MessageItem.Body` | DbxOutlookExpressLibrary/DbxMessageIndexedItem.cs:141-189 | the decoded segments concatenated in chain order; LastEncoding is the last segment's encoding, unchanged for an empty chain |
| `MessageItem.BodyStep` | DbxOutlookExpressLibrary/DbxMessageIndexedItem.cs:151-184 | one turn of the section loop: a revisited address is Cyclic, an unreadable header fails, otherwise the segment's text is appended, its encoding becomes LastEncoding, and the loop moves to its next address |
| `MessageItem.BodyCons` | DbxOutlookExpressLibrary/DbxMessageIndexedItem.cs:177-183 | the text of a chain is its first segment's text followed by the rest, and the final LastEncoding is the one the rest leaves after the first segment's encoding |
| `MessageItem.GetBody` | DbxOutlookExpressLibrary/DbxMessageIndexedItem.cs:141-189 | the loop returns Body's text and leaves its LastEncoding |
| `MessageItem.MessageFields` | DbxOutlookExpressLibrary/DbxMessageIndexedItem.cs:249-287 | sender, received time, subject and recipient come from their slots; a blank recipient address is replaced by slot 0x1a; Message is MessageBytes; Encoding is LastEncoding afterwards |
| `MessageItem.TextAtIs` | DbxOutlookExpressLibrary/DbxMessageIndexedItem.cs:253-280 | each GetString result is independent of the LastEncoding the previous reads left |
| `MessageItem.NullStringsKeepEncoding` | DbxOutlookExpressLibrary/DbxMessageIndexedItem.cs:253-285 | when every string the decoder reads is null, Encoding is the LastEncoding from before the call |
| `MessageItem.SetItemValues` | DbxOutlookExpressLibrary/DbxMessageIndexedItem.cs:249-287 | a null message changes nothing; otherwise the message DecodeMessage gives |
| `MessageItem.NewMessage` | DbxOutlookExpress/DbxMessage.cs:39-45 | the constructor decodes the record with the preferred encoding set |
| `Files.OpenBytes` | DbxOutlookExpress/DbxFile.cs:30-62 | FileMissing for a missing file, NotDbxExtension for another extension, a failed copy for a file shorter than 0x24bc bytes, else the file's bytes |
| `Files.OpenRefused` | DbxOutlookExpress/DbxFile.cs:34-61 | a DbxException exactly when the file is missing or does not end in ".dbx" |
| `Files.DbxFile.constructor` | DbxOutlookExpress/DbxFile.cs:30-45 | the bytes, the path and the header; the cursor at 0, no tree, no preferred encoding |
| `Files.DbxFile.ReadTree` | DbxOutlookExpress/DbxFile.cs:113-118 | the tree is the one rooted at the header's main tree address |
| `Files.NewFile` | DbxOutlookExpress/DbxFile.cs:30-63 | succeeds exactly when OpenBytes does; the header is built from the first 0x24bc bytes |
| `Folder.ReadFolder` | DbxOutlookExpress/DbxFolder.cs:131-148 | a childless folder at the address; a DbxException exactly on a wrong marker |
| `Folder.NewFolder` | DbxOutlookExpress/DbxFolder.cs:131-148 | the constructor gives ReadFolder's folder |
| `Folder.RemoveFirst` | DbxOutlookExpress/DbxFolder.cs:222 | List.Remove drops exactly one occurrence when there is one |
| `Folder.ScanClamped` | DbxOutlookExpress/DbxFolder.cs:200-205 | an index above the list resumes at its last position |
| `Folder.ChildrenOf` | DbxOutlookExpress/DbxFolder.cs:191-236 | the backwards scan over the address list; the list never grows |
| `Folder.ChildrenOfGrows` | DbxOutlookExpress/DbxFolder.cs:191-236 | only the children change, the old ones stay first, every new child names this folder as parent and is decoded from its address, the addresses taken out are exactly those of the new subtrees, and no DbxException escapes |
| `Folder.ScanGrows` | DbxOutlookExpress/DbxFolder.cs:196-232 | the same from any scan position |
| `Folder.GetChildren` | DbxOutlookExpress/DbxFolder.cs:191-236 | a null list returns the folder unchanged; otherwise the scan's folder and what is left of the list |
| `Folder.ScanChildren` | DbxOutlookExpress/DbxFolder.cs:196-232 | the backwards loop gives ChildrenOf's result |
| `Folder.ScanAt` | DbxOutlookExpress/DbxFolder.cs:207-226 | one loop body: the rest of the scan from one position lower gives the same result, and the list stays or shrinks |
| `Folder.ScanStep` | DbxOutlookExpress/DbxFolder.cs:200-226 | one loop body with its clamp: the rest of the scan from a lower position gives the same result, and the list stays or shrinks |
| `Folder.RemoveAt` | DbxOutlookExpress/DbxFolder.cs:263 | the element at the position is dropped and the rest keep their order |
| `Folder.RemoveAtMultiset` | DbxOutlookExpress/DbxFolder.cs:263 | exactly that element is lost |
| `Folder.FolderChildren` | DbxOutlookExpress/DbxFolder.cs:243-279 | the scan over the folder list, as written or corrected; the list never grows |
| `Folder.GetChildrenFolders` | DbxOutlookExpress/DbxFolder.cs:243-279 | a null list returns the folder unchanged; otherwise the corrected scan's result |
| `Folder.ScanFolderList` | DbxOutlookExpress/DbxFolder.cs:248-275 | the loop gives the corrected FolderChildren result |
| `Folder.ScanFolderAt` | DbxOutlookExpress/DbxFolder.cs:252-269 | one loop body: the rest of the scan from one position lower gives the same result |
| `Folder.FolderChildrenFails` | DbxOutlookExpress/DbxFolder.cs:252-257 | only the as-written scan can fail, and only by indexing out of range |
| `Folder.FolderChildrenPlaced` | DbxOutlookExpress/DbxFolder.cs:257-268 | over childless folders: every folder taken out is placed exactly once, every placed child names its parent, only children change |
| `Folder.FolderChildrenComplete` | DbxOutlookExpress/DbxFolder.cs:248-275 | the corrected scan leaves in the list, in order, only folders whose parent is neither this folder nor any folder placed under it |
| `Folder.ScanTake` | DbxOutlookExpress/DbxFolder.cs:259-268 | after a match the scan resumes with the grown child appended, at index - children - 1 as written and index - 1 corrected |
| `Folder.Listed` | DbxOutlookExpress/DbxFolder.cs:38-44 | the four-field constructor sets id, parent and name |
| `Folder.TreeOrder` | DbxOutlookExpressTests/DbxOutlookExpressTests.cs:285-316 | root 0 over A, B, C, D, E gets children E, C, A, with D under E and B under D, by both scans |
| `Folder.ChainOutOfRange` | DbxOutlookExpress/DbxFolder.cs:252-257 | G under K under A, listed leaf first: the as-written scan fails out of range, the corrected one builds the chain |
| `Folder.SiblingSkipped` | DbxOutlookExpress/DbxFolder.cs:265-268 | X and Z under the root, Y under Z: the as-written scan leaves X, a root child, in the list |
| `Folder.SiblingTaken` | DbxOutlookExpress/DbxFolder.cs:265-268 | the corrected scan takes Z with Y and then X |
| `Folder.SetOrderedIndexes` | DbxOutlookExpress/DbxFolder.cs:304-318 | null stays null; otherwise the list followed by the folder's pre-order addresses |
| `Folder.PreOrderAddresses` | DbxOutlookExpress/DbxFolder.cs:304-318 | the pre-order list holds each address of the tree as often as the tree does |
| `Folder.PreOrderStarts` | DbxOutlookExpress/DbxFolder.cs:308 | the pre-order list starts with the folder's own address |
| `Folder.OrphanFolder` | DbxOutlookExpress/DbxFolder.cs:54-99 | id as given, parent 0, file name as given; named after the file, without its extension, exactly when the file exists |
| `Folder.OrphanName` | DbxOutlookExpress/DbxFolder.cs:320-329 | in a directory, an existing file's orphan name plus its extension is the file name |
| `FoldersFile.ActiveIndexes` | DbxOutlookExpressLibrary/DbxFoldersFile.cs:245-259 | the ordered list when non-empty, else the tree's list, a null reference before the tree is read |
| `FoldersFile.NextFolderAdvance` | DbxOutlookExpressLibrary/DbxFoldersFile.cs:63-105 | past the end null and no change; a returned folder is decoded just before the new cursor, one past the old, two when the root was skipped; its non-blank file name is recorded |
| `FoldersFile.RootOnlyAsWritten` | DbxOutlookExpressLibrary/DbxFoldersFile.cs:76-80 | over [0] the source's GetNextFolder indexes past the end |
| `FoldersFile.RootOnlyCorrected` | DbxOutlookExpressLibrary/DbxFoldersFile.cs:69-80 | the corrected call returns null over [0]; any failure is some listed address's decode failure |
| `FoldersFile.ListNamesCount` | DbxOutlookExpressLibrary/DbxFoldersFile.cs:118-154 | without failure one name per nonzero address, blank names included; never more names than addresses |
| `FoldersFile.ListNamesStep` | DbxOutlookExpressLibrary/DbxFoldersFile.cs:118-153 | address 0 is skipped; any other address appends its trimmed, upper-cased name or stops at its failure |
| `FoldersFile.ListNamesStops` | DbxOutlookExpressLibrary/DbxFoldersFile.cs:126-131 | once a decode fails, later addresses add nothing |
| `FoldersFile.SkipRoot` | DbxOutlookExpressLibrary/DbxFoldersFile.cs:76-80 | the cursor moves only from position 0 over a root address 0, to position 1 |
| `FoldersFile.DbxFoldersFile.constructor` | DbxOutlookExpressLibrary/DbxFoldersFile.cs:34-39 | no names and no ordered list yet |
| `FoldersFile.DbxFoldersFile.GetNextFolder` | DbxOutlookExpressLibrary/DbxFoldersFile.cs:63-105 | returns and moves the cursor as the corrected NextFolder, appending its name; nothing else changes |
| `FoldersFile.DbxFoldersFile.SkipRootEntry` | DbxOutlookExpressLibrary/DbxFoldersFile.cs:76-79 | the cursor moves as SkipRoot says |
| `FoldersFile.DbxFoldersFile.TakeFolder` | DbxOutlookExpressLibrary/DbxFoldersFile.cs:82-98 | the folder decoded at the address; its trimmed, upper-cased file name is appended when not blank, nothing on a failure |
| `FoldersFile.DbxFoldersFile.List` | DbxOutlookExpressLibrary/DbxFoldersFile.cs:110-156 | without a tree nothing; otherwise the names ListNames records for the active list are appended |
| `FoldersFile.DbxFoldersFile.ListAll` | DbxOutlookExpressLibrary/DbxFoldersFile.cs:118-154 | the loop over the active addresses appends ListNames' names and stops at its failure |
| `FoldersFile.DbxFoldersFile.ListFolder` | DbxOutlookExpressLibrary/DbxFoldersFile.cs:126-153 | the folder decoded at the address; its trimmed, upper-cased file name, "" when blank, appended on success |
| `FoldersFile.DbxFoldersFile.SetTreeOrdered` | DbxOutlookExpressLibrary/DbxFoldersFile.cs:228-243 | a root with address 0 takes its children out of the tree's list, which keeps the rest; the ordered list becomes its pre-order list |
| `FoldersFile.OrderedIndexes` | DbxOutlookExpressLibrary/DbxFoldersFile.cs:228-243 | the ordered list starts at 0; with the tree's remainder it holds the old addresses and that 0; every folder under the root is decoded and linked to its parent |
| `FoldersFile.NewFoldersFile` | DbxOutlookExpressLibrary/DbxFoldersFile.cs:34-51 | the DbxFile checks; the tree is read exactly when the header says FolderFile |
| `MessagesFile.NextMessage` | DbxOutlookExpressLibrary/DbxMessagesFile.cs:57-84 | a returned message puts the cursor past the old one, within the list; a successful call never moves the cursor back |
| `MessagesFile.LastRecordAsWritten` | DbxOutlookExpressLibrary/DbxMessagesFile.cs:67-77 | a DbxException at the last record: the source's retry indexes past the end and leaves the cursor at the count, the corrected one returns null |
| `MessagesFile.SkipsIsolated` | DbxOutlookExpressLibrary/DbxMessagesFile.cs:57-84 | when failing records are isolated, repeated calls return exactly the records that decode, in order, with no error |
| `MessagesFile.TwoFailuresEscape` | DbxOutlookExpressLibrary/DbxMessagesFile.cs:69-76 | two adjacent failures: the second escapes, with the cursor on it |
| `MessagesFile.SectionsOfChunks` | DbxOutlookExpressLibrary/DbxMessagesFile.cs:159-160 | one section per chunk, the ASCII text of its payload |
| `MessagesFile.DeletedShape` | DbxOutlookExpressLibrary/DbxMessagesFile.cs:143-171 | succeeds exactly when the unchecked chain reads; one section per chunk: payload at +0x10 of the length at +8, next at +12 |
| `MessagesFile.DeletedStep` | DbxOutlookExpressLibrary/DbxMessagesFile.cs:149-170 | one turn of the deleted-items loop: a revisited address is Cyclic, an unreadable header fails, otherwise the ASCII text of the payload is appended and the loop moves to its next address |
| `MessagesFile.DbxMessagesFile.constructor` | DbxOutlookExpressLibrary/DbxMessagesFile.cs:30-33 | holds the file |
| `MessagesFile.DbxMessagesFile.GetNextMessage` | DbxOutlookExpressLibrary/DbxMessagesFile.cs:57-84 | returns and moves the cursor as the corrected NextMessage; the tree is unchanged |
| `MessagesFile.DbxMessagesFile.GetNextMessageInner` | DbxOutlookExpressLibrary/DbxMessagesFile.cs:173-190 | the message decoded at the cursor's address |
| `MessagesFile.DbxMessagesFile.ListDeletedSegments` | DbxOutlookExpressLibrary/DbxMessagesFile.cs:143-171 | the loop gives DeletedSections from the header's deleted-items address |
| `MessagesFile.NewMessagesFile` | DbxOutlookExpressLibrary/DbxMessagesFile.cs:30-51 | the DbxFile checks; the tree is read exactly when the header says MessageFile |
| `FolderSet.OrphansMembers` | DbxOutlookExpressLibrary/DbxSet.cs:191-213 | a name is an orphan exactly when a listed file has it and, upper-cased, it is neither declared nor ignored |
| `FolderSet.AllOrphans` | DbxOutlookExpressLibrary/DbxSet.cs:208-212 | without a folders file every listed file is an orphan, in listing order |
| `FolderSet.KeptMembers` | DbxOutlookExpressLibrary/DbxSet.cs:191-213 | a name is kept exactly when some listed file has it and the filter accepts it; never more names than files |
| `FolderSet.Next` | DbxOutlookExpressLibrary/DbxSet.cs:87-131 | the orphan cursor stays unset or inside the orphan list |
| `FolderSet.Primed` | DbxOutlookExpressLibrary/DbxSet.cs:100-105 | the orphan cursor is set afterwards and the maximum is unchanged |
| `FolderSet.NextOrphan` | DbxOutlookExpressLibrary/DbxSet.cs:107-119 | the orphan cursor stays inside the orphan list |
| `FolderSet.NextIds` | DbxOutlookExpressLibrary/DbxSet.cs:96-128 | the maximum never drops and bounds every returned id; an orphan gets maximum + 1, above all earlier ids; orphans are computed once and taken one per call |
| `FolderSet.NextWraps` | DbxOutlookExpressLibrary/DbxSet.cs:114-116 | at maximum 0xFFFFFFFF the next orphan's id wraps to 0 |
| `FolderSet.NothingThere` | DbxOutlookExpressTests/DbxOutlookExpressTests.cs:212-224 | a missing path opens no folders file and the first GetNextFolder returns null |
| `FolderSet.DbxSet.constructor` | DbxOutlookExpressLibrary/DbxSet.cs:40-43 | maximum 0, orphan cursor -1, no orphans |
| `FolderSet.DbxSet.AppendOrphanedFiles` | DbxOutlookExpressLibrary/DbxSet.cs:175-217 | the loop gives Orphans over the directory listing |
| `FolderSet.DbxSet.GetNextFolder` | DbxOutlookExpressLibrary/DbxSet.cs:87-131 | the folders file's step, then Next; a failure leaves the set's fields unchanged |
| `FolderSet.DbxSet.TakeNext` | DbxOutlookExpressLibrary/DbxSet.cs:96-128 | the folder and the new maximum, orphan cursor and orphan list Next gives |
| `FolderSet.DbxSet.TakeOrphan` | DbxOutlookExpressLibrary/DbxSet.cs:100-119 | the orphan and the new state NextOrphan gives |
| `FolderSet.DbxSet.PrimeOrphans` | DbxOutlookExpressLibrary/DbxSet.cs:100-105 | the orphan list computed once, when the cursor is -1, as Primed says |
| `FolderSet.NewSet` | DbxOutlookExpressLibrary/DbxSet.cs:40-81 | opens Folders.dbx only when it exists and has that exact name; a DbxException leaves no folders file, others escape; the given path is kept |
| `LegacyItem.LegacyFill` | DbxToPstLibrary/DbxIndexedItem.cs:64-83 | the offset table stays 0x40 long; the only failure is an out-of-range access |
| `LegacyItem.LegacyStep` | DbxToPstLibrary/DbxIndexedItem.cs:66-82 | one entry succeeds exactly when its byte exists, its slot fits and an indirect entry has its delta bytes; the table stays 0x40 long |
| `LegacyItem.LegacyErrPersists` | DbxToPstLibrary/DbxIndexedItem.cs:64-83 | once an entry fails, the longer walks fail the same way |
| `LegacyItem.LegacyDecode` | DbxToPstLibrary/DbxIndexedItem.cs:40-84 | WrongMarker exactly when the first word differs from the address |
| `LegacyItem.SameOffsets` | DbxToPstLibrary/DbxIndexedItem.cs:64-83 | the older walk fails exactly when the current one does and leaves the same offsets |
| `LegacyItem.SameRecord` | DbxToPstLibrary/DbxIndexedItem.cs:40-84 | from empty tables both decoders agree on success, body, offsets and error |
| `LegacyItem.LegacyString` | DbxToPstLibrary/DbxIndexedItem.cs:91-121 | out of table fails, offset 0 is null, otherwise the ASCII text up to the first zero byte |
| `LegacyItem.SameValues` | DbxToPstLibrary/DbxIndexedItem.cs:128-157 | GetValue and GetValueLong agree with the current decoder's: 3 and 8 bytes, 0 for an unfilled slot |
| `LegacyItem.LegacyIndexedItem.constructor` | DbxToPstLibrary/DbxIndexedItem.cs:29-32 | a fresh zeroed table of 0x40 offsets |
| `LegacyItem.LegacyIndexedItem.SetIndex` | DbxToPstLibrary/DbxIndexedItem.cs:159-162 | writes the slot; a slot past the table fails and changes nothing |
| `LegacyItem.LegacyIndexedItem.ReadEntry` | DbxToPstLibrary/DbxIndexedItem.cs:66-82 | one loop turn leaves the table LegacyStep gives, or fails with its error |
| `LegacyItem.LegacyIndexedItem.ReadEntries` | DbxToPstLibrary/DbxIndexedItem.cs:64-83 | the loop leaves the table LegacyFill gives, or fails with its error |
| `LegacyItem.LegacyIndexedItem.ReadIndex` | DbxToPstLibrary/DbxIndexedItem.cs:40-84 | the table and body end as LegacyDecode gives, on top of the previous table |
| `LegacyItem.LegacyIndexedItem.GetString` | DbxToPstLibrary/DbxIndexedItem.cs:91-121 | the scan returns LegacyString |

## Left out

- Logging: every Log call is dropped; the magic-byte warnings are returned by `Header.ReadHeader` instead.
- `DateTime.FromFileTime` of ReceivedTime: the message keeps the raw 64-bit value (library date arithmetic).
- Charset detection and `Encoding.GetString`: a `TextCodec` parameter (detector verdict, decoder) stands for the foreign library.
- DbxTree is not part of this model: `ReadTree` takes a function giving the FolderInformationIndexes list of a file and a root address.
- File and directory I/O: the file system is a value (`Paths.FileSystem`) mapping paths to bytes and directories to their `*.dbx` listing; `Path.*` helpers are modelled on backslash and slash separators.
- `DbxFolder.GetMessagesFile`/`SetMessagesFile`, `GetNextMessage` of a folder, `MigrateFolder(s)`, `DbxSet.Migrate`, `DbxSet.List`, `DbxSet.SetTreeOrdered`, and `DbxMessagesFile.List` (which only logs): they open files or only delegate and log.
- Folders are values, not shared objects: `GetChildren` returns the grown folder and what is left of the list instead of updating `childrenFolders` and the caller's list in place; aliasing between folders is not modelled.
- State after an exception: a failing method's fields are stated only where the model gives them; the partial updates the source leaves behind before throwing (such as a reallocated but unfilled body) are not modelled.
- Forward chains whose next addresses cycle: the source loops for ever or runs out of memory; the model stops with `Cyclic`.
- `ByteCodec.ToIntegerLimit`: a width outside 0..4 fails, where the unseen helper's behaviour is not known.
- uint wrap-around of addresses (`address + 12`, `address + 0x10`) and the int cast of a length above 2^31: addresses and lengths are unbounded naturals.
- `CurrentIndex` is an int in the source and could be set negative by a caller; the model's cursor is a natural number.
- `FolderSet.Next`: the running maximum takes in a declared folder's id only when it fits a uint, as a folder id always does in the source.
- `FolderSet.NextIds`: requires the maximum to be below 0xFFFFFFFF; the wrap at that value is stated separately by `FolderSet.NextWraps`.
- `FoldersFile.DbxFoldersFile.GetNextFolder`: states the corrected root skip; the as-written behaviour is proved on `FoldersFile.NextFolder` with `asWritten` set.
- `MessagesFile.DbxMessagesFile.GetNextMessage`: states the corrected retry; the as-written behaviour is proved on `MessagesFile.NextMessage` with `asWritten` set.
- `Folder.GetChildrenFolders`: states the corrected scan; the as-written behaviour is proved on `Folder.FolderChildren` with `asWritten` set.
- `Text.ToUpperInvariant`: folds only the Latin-1 letters; lower-case letters above U+00FF (Latin Extended, Greek, Cyrillic, …) are kept as they are, where .NET's invariant upper-casing folds them, so such names can differ in FolderFiles and in the orphan filter.
- `FolderSet.NewSet`: `Directory.GetFiles` entries are taken to be full paths in the listing, whose file names are used.
- The folder constructor's `loadMessagesFile` branch and the opened messages file are not kept in the folder value.

## Findings

| source | as written | input that shows it | evidently intended | confidence | as-written member | corrected member |
|---|---|---|---|---|---|---|
| DbxOutlookExpress/DbxFolder.cs:252-257 | after removals the index is clamped to `folders.Count - 1`, which is -1 on an emptied list, and `folders[-1]` is read; the ArgumentOutOfRangeException is not caught | root 0 over [G(3 under 2), K(2 under 1), A(1 under 0)] | stop the scan when the list is empty | not executed | `Folder.ChainOutOfRange` | `Folder.FolderChildrenFails`, `Folder.GetChildrenFolders` |
| DbxOutlookExpress/DbxFolder.cs:265-268 | after a match the index is lowered by the child's direct-children count on top of the loop's own decrement, so folders just below the match are never examined | root 0 over [X(1 under 0), Z(2 under 0), Y(3 under 2)]: X is left in the list | go on one position lower, as the address overload does | not executed | `Folder.SiblingSkipped` | `Folder.SiblingTaken`, `Folder.FolderChildrenComplete` |
| DbxOutlookExpressLibrary/DbxMessagesFile.cs:67-77 | on a DbxException at the last record the retry bumps the cursor to the count and indexes the list there | a list whose last record has a wrong marker, cursor on it | return null when no record is left to retry | not executed | `MessagesFile.LastRecordAsWritten` | `MessagesFile.SkipsIsolated`, `MessagesFile.DbxMessagesFile.GetNextMessage` |
| DbxOutlookExpressLibrary/DbxFoldersFile.cs:76-80 | the root skip reads `folderIndexes[1]` without checking the count | the ordered list [0] that SetTreeOrdered leaves when no folder hangs under the root | return null when only the root is listed | not executed | `FoldersFile.RootOnlyAsWritten` | `FoldersFile.RootOnlyCorrected`, `FoldersFile.DbxFoldersFile.GetNextFolder` |
