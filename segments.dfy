/**
 * The forward-linked chunk chains of a .dbx file. A chunk starts with a
 * 16-byte header: its own address (word 0), the payload length (word 2) and
 * the address of the next chunk (word 3, 0 at the end); the payload follows
 * the header. Message bodies and the deleted-items list are such chains.
 *
 * A chain in a damaged file can point back at a chunk already read; the
 * source then loops for ever. The walk here carries the set of addresses it
 * has read and reports Cyclic instead.
 */
module Segments {
  import opened Wrappers
  import opened Errors
  import opened ByteCodec
  import IndexedItem

  const ChunkHeaderSize: nat := 0x10

  /** A chunk header that has been read, and whose payload lies inside the file. */
  datatype Chunk = Chunk(address: nat, length: nat, next: nat)

  /** The addresses inside the file not read yet: the walk's termination measure. */
  function Unvisited(file: seq<byte>, visited: set<nat>): set<nat>
  {
    set a: nat | a < |file| && a !in visited
  }

  /** Word `k` of the chunk header at `address`. */
  function HeaderWord(file: seq<byte>, address: nat, k: nat): nat
    requires address + ChunkHeaderSize <= |file| && k < 4
  {
    LittleEndian(file[address + 4 * k..address + 4 * k + 4])
  }

  /** The payload of a chunk whose payload fits the file. */
  predicate Fits(file: seq<byte>, c: Chunk)
  {
    c.address + ChunkHeaderSize + c.length <= |file|
  }

  function Data(file: seq<byte>, c: Chunk): seq<byte>
    requires Fits(file, c)
  {
    file[c.address + ChunkHeaderSize..c.address + ChunkHeaderSize + c.length]
  }

  /**
   * Reads the chunk at `address`: its header must lie in the file, with
   * `checkMarker` its first word must be its own address, and its payload must
   * lie in the file. The payload length is otherwise free (0 and lengths
   * above 2000 only provoke a warning).
   */
  function ReadChunk(file: seq<byte>, address: nat, checkMarker: bool): (r: Result<Chunk, Error>)
    ensures r.Ok? <==>
      && address + ChunkHeaderSize <= |file|
      && (checkMarker ==> HeaderWord(file, address, 0) == address)
      && address + ChunkHeaderSize + HeaderWord(file, address, 2) <= |file|
    ensures r.Ok? ==>
      r.value == Chunk(address, HeaderWord(file, address, 2), HeaderWord(file, address, 3)) && Fits(file, r.value)
    ensures r == Err(WrongMarker) <==>
      checkMarker && address + ChunkHeaderSize <= |file| && HeaderWord(file, address, 0) != address
    ensures r.Err? ==> r.error in {WrongMarker, OutOfRange}
  {
    if address + ChunkHeaderSize > |file| then Err(OutOfRange)
    else if checkMarker && HeaderWord(file, address, 0) != address then Err(WrongMarker)
    else
      var c := Chunk(address, HeaderWord(file, address, 2), HeaderWord(file, address, 3));
      if !Fits(file, c) then Err(OutOfRange) else Ok(c)
  }

  /**
   * The chunks of a chain read in order: the first one at `address`, each
   * following one at its predecessor's next address, the last one with next
   * address 0.
   */
  predicate Linked(cs: seq<Chunk>, address: nat)
  {
    && (cs == [] <==> address == 0)
    && (cs != [] ==> cs[0].address == address && cs[|cs| - 1].next == 0)
    && (forall i :: 0 <= i < |cs| - 1 ==> cs[i].next == cs[i + 1].address)
  }

  /** No chunk is read twice. */
  predicate Distinct(cs: seq<Chunk>)
  {
    forall i, j :: 0 <= i < j < |cs| ==> cs[i].address != cs[j].address
  }

  /**
   * The walk `while (address != 0) { read the chunk; address = next }`
   * from `address`, having read the chunks at `visited` before.
   */
  function Chain(file: seq<byte>, address: nat, visited: set<nat>, checkMarker: bool): (r: Result<seq<Chunk>, Error>)
    decreases Unvisited(file, visited)
    ensures r.Ok? ==> Linked(r.value, address) && Distinct(r.value)
    ensures r.Ok? ==> forall i :: 0 <= i < |r.value| ==>
      r.value[i].address != 0 && r.value[i].address !in visited
      && ReadChunk(file, r.value[i].address, checkMarker) == Ok(r.value[i])
    ensures r.Err? ==> r.error in {WrongMarker, OutOfRange, Cyclic}
  {
    if address == 0 then Ok([])
    else if address in visited then Err(Cyclic)
    else
      match ReadChunk(file, address, checkMarker)
      case Err(error) => Err(error)
      case Ok(c) =>
        assert address in Unvisited(file, visited) - Unvisited(file, visited + {address});
        match Chain(file, c.next, visited + {address}, checkMarker)
        case Err(error) => Err(error)
        case Ok(rest) =>
          var cs := [c] + rest;
          assert forall i :: 0 < i < |cs| ==> cs[i] == rest[i - 1];
          Ok(cs)
  }

  /**
   * One step of the walk from a nonzero address: a revisit is Cyclic, a
   * chunk that cannot be read ends it with its error, and a readable chunk
   * is followed by the walk from its next address.
   */
  lemma ChainStep(file: seq<byte>, address: nat, visited: set<nat>, checkMarker: bool)
    requires address != 0
    ensures address in visited ==> Chain(file, address, visited, checkMarker) == Err(Cyclic)
    ensures address !in visited && ReadChunk(file, address, checkMarker).Err? ==>
      Chain(file, address, visited, checkMarker) == Err(ReadChunk(file, address, checkMarker).error)
    ensures address !in visited && ReadChunk(file, address, checkMarker).Ok? ==>
      var c := ReadChunk(file, address, checkMarker).value;
      var rest := Chain(file, c.next, visited + {address}, checkMarker);
      && (rest.Err? ==> Chain(file, address, visited, checkMarker) == Err(rest.error))
      && (rest.Ok? ==> Chain(file, address, visited, checkMarker) == Ok([c] + rest.value))
  {
  }

  /** The sum of the payload lengths. */
  function TotalLength(cs: seq<Chunk>): nat
  {
    if cs == [] then 0 else cs[0].length + TotalLength(cs[1..])
  }

  lemma {:induction false} TotalLengthLast(cs: seq<Chunk>)
    requires cs != []
    ensures TotalLength(cs) == TotalLength(cs[..|cs| - 1]) + cs[|cs| - 1].length
  {
    if |cs| > 1 {
      TotalLengthLast(cs[1..]);
      assert cs[1..][..|cs| - 2] == cs[..|cs| - 1][1..];
    }
  }

  /**
   * One reallocation of GetMessageBytes: a zeroed buffer of the old length
   * plus the segment, with the segment copied at the end. The old contents
   * are not copied.
   */
  function Grow(message: seq<byte>, segment: seq<byte>): seq<byte>
  {
    IndexedItem.Zeros<byte>(|message|, 0) + segment
  }

  /** The buffer after the reallocations of chunks `cs`, starting from `message`. */
  function Assemble(file: seq<byte>, message: seq<byte>, cs: seq<Chunk>): seq<byte>
    requires forall i :: 0 <= i < |cs| ==> Fits(file, cs[i])
    decreases cs
  {
    if cs == [] then message else Assemble(file, Grow(message, Data(file, cs[0])), cs[1..])
  }

  /**
   * The assembled buffer is as long as all payloads together, but only the
   * last chunk's payload survives, at its end; every earlier byte is zero.
   */
  lemma {:induction false} AssembleShape(file: seq<byte>, message: seq<byte>, cs: seq<Chunk>)
    requires cs != []
    requires forall i :: 0 <= i < |cs| ==> Fits(file, cs[i])
    ensures Assemble(file, message, cs) ==
      IndexedItem.Zeros<byte>(|message| + TotalLength(cs[..|cs| - 1]), 0) + Data(file, cs[|cs| - 1])
    ensures |Assemble(file, message, cs)| == |message| + TotalLength(cs)
    decreases cs
  {
    TotalLengthLast(cs);
    var grown := Grow(message, Data(file, cs[0]));
    if |cs| > 1 {
      AssembleShape(file, grown, cs[1..]);
      TotalLengthLast(cs[1..]);
      assert cs[1..][..|cs| - 2] == cs[..|cs| - 1][1..];
      assert TotalLength(cs[..|cs| - 1]) == cs[0].length + TotalLength(cs[1..][..|cs| - 2]);
    } else {
      assert cs[..0] == [];
    }
  }
}
