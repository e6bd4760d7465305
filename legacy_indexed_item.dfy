/**
 * The older record decoder of the PST converter: the same prologue and
 * entry rules as DbxIndexedItem, but only the offsets are kept (no sizes),
 * the table is not reset between reads, and strings are read as ASCII.
 */
module LegacyItem {
  import opened Wrappers
  import opened Errors
  import opened ByteCodec
  import opened Text
  import opened IndexedItem

  /** The offsets after the first `n` entries; a later entry for a slot overwrites an earlier one. */
  function LegacyFill(body: seq<byte>, count: nat, indexes0: seq<nat>, n: nat): (r: Result<seq<nat>, Error>)
    requires |indexes0| == MaximumIndexes && n <= count
    ensures r.Ok? ==> |r.value| == MaximumIndexes
    ensures r.Err? ==> r.error == OutOfRange
  {
    if n == 0 then Ok(indexes0)
    else
      match LegacyFill(body, count, indexes0, n - 1)
      case Err(error) => Err(error)
      case Ok(indexes) => LegacyStep(body, count, indexes, n - 1)
  }

  /** One turn of the older entry loop: the slot gets its offset; an entry past the body or a slot outside the table fails. */
  function LegacyStep(body: seq<byte>, count: nat, indexes: seq<nat>, e: nat): (r: Result<seq<nat>, Error>)
    requires |indexes| == MaximumIndexes && e < count
    ensures r.Ok? <==> EntryOk(body, e)
    ensures r.Ok? ==> |r.value| == MaximumIndexes
    ensures r.Err? ==> r.error == OutOfRange
  {
    if !EntryOk(body, e) then Err(OutOfRange)
    else Ok(indexes[SlotOf(body[4 * e]) := EntryOffset(body, count, e)])
  }

  /**
   * ReadIndex(fileBytes, address) on a table holding `indexes0`: the marker
   * check, the body copy and the entries, as the current decoder does them.
   */
  function LegacyDecode(file: seq<byte>, address: nat, indexes0: seq<nat>): (r: Result<(seq<byte>, seq<nat>), Error>)
    requires |indexes0| == MaximumIndexes
    ensures r == Err(WrongMarker) <==> address + PrologueSize <= |file| && Marker(file, address) != address
    ensures r.Ok? ==> |r.value.1| == MaximumIndexes
  {
    if address + PrologueSize > |file| then Err(OutOfRange)
    else if Marker(file, address) != address then Err(WrongMarker)
    else
      var offset := address + PrologueSize;
      var count := EntryCount(file, address);
      if offset + BodyLength(file, address) > |file| then Err(OutOfRange)
      else
        var body := file[offset..offset + BodyLength(file, address)];
        match LegacyFill(body, count, indexes0, count)
        case Err(error) => Err(error)
        case Ok(indexes) => Ok((body, indexes))
  }

  /**
   * The older table walk fails exactly where the current one does and
   * leaves every slot with the same offset; only the sizes are new.
   */
  lemma {:induction false} SameOffsets(body: seq<byte>, count: nat, t0: Table, n: nat)
    requires TableOk(t0) && n <= count
    ensures LegacyFill(body, count, t0.indexes, n).Ok? <==> Fill(body, count, t0, n).Ok?
    ensures LegacyFill(body, count, t0.indexes, n).Ok? ==>
      LegacyFill(body, count, t0.indexes, n).value == Fill(body, count, t0, n).value.indexes
  {
    if n > 0 {
      SameOffsets(body, count, t0, n - 1);
    }
  }

  /**
   * Decoding a record from fresh tables: the older decoder succeeds exactly
   * when the current one does, with the same body and the same offsets,
   * and fails with the same error.
   */
  lemma SameRecord(file: seq<byte>, address: nat)
    ensures var legacy := LegacyDecode(file, address, Zeros<nat>(MaximumIndexes, 0));
      && (legacy.Ok? <==> NewRecord(file, address).Ok?)
      && (legacy.Ok? ==>
            legacy.value.0 == NewRecord(file, address).value.body
            && legacy.value.1 == NewRecord(file, address).value.indexes)
      && (legacy.Err? ==> legacy.error == NewRecord(file, address).error)
  {
    if address + PrologueSize <= |file| && Marker(file, address) == address {
      var offset := address + PrologueSize;
      if offset + BodyLength(file, address) <= |file| {
        var body := file[offset..offset + BodyLength(file, address)];
        SameOffsets(body, EntryCount(file, address),
                    Table(Zeros<nat>(MaximumIndexes, 0), Zeros<int>(MaximumIndexes, 0), false, 0), EntryCount(file, address));
      }
    }
  }

  /** GetString(index): null for offset 0, else the ASCII text up to the first zero byte of the body. */
  function LegacyString(body: seq<byte>, indexes: seq<nat>, index: nat): (r: Result<Option<string>, Error>)
    ensures index >= |indexes| ==> r == Err(OutOfRange)
    ensures index < |indexes| && indexes[index] == 0 ==> r == Ok(None)
    ensures r.Ok? && r.value.Some? ==>
      index < |indexes| && var start := indexes[index];
      exists end :: start <= end < |body| && body[end] == 0
        && (forall k :: start <= k < end ==> body[k] != 0)
        && r.value.value == AsciiDecode(body[start..end])
  {
    if index >= |indexes| then Err(OutOfRange)
    else if indexes[index] == 0 then Ok(None)
    else
      match Terminator(body, indexes[index])
      case Err(error) => Err(error)
      case Ok(end) => Ok(Some(AsciiDecode(body[indexes[index]..end])))
  }

  /** GetValue(index): three bytes, 0 for an unfilled slot. */
  function LegacyValue(body: seq<byte>, indexes: seq<nat>, index: nat): Result<nat, Error>
  {
    if index >= |indexes| then Err(OutOfRange)
    else if indexes[index] == 0 then Ok(0)
    else ToIntegerLimit(body, indexes[index], 3)
  }

  /** GetValueLong(index): eight bytes, 0 for an unfilled slot. */
  function LegacyValueLong(body: seq<byte>, indexes: seq<nat>, index: nat): Result<nat, Error>
  {
    if index >= |indexes| then Err(OutOfRange)
    else if indexes[index] == 0 then Ok(0)
    else ToLong(body, indexes[index])
  }

  /**
   * The older value readers agree with the current ones on any record with
   * the same body and offsets, whatever its sizes, for slots up to 0x7F.
   */
  lemma SameValues(rec: Record, index: nat)
    requires RecordOk(rec)
    ensures LegacyValue(rec.body, rec.indexes, index) == Value(rec, index, 3)
    ensures LegacyValueLong(rec.body, rec.indexes, index) == ValueLong(rec, index)
  {
  }

  class LegacyIndexedItem {
    const indexes: array<nat>
    var bodyBytes: seq<byte>

    predicate Valid()
      reads this
    {
      indexes.Length == MaximumIndexes
    }

    /** The constructor: an empty table of 0x40 offsets. */
    constructor ()
      ensures Valid() && fresh(indexes)
      ensures indexes[..] == Zeros<nat>(MaximumIndexes, 0) && bodyBytes == []
    {
      indexes := new nat[MaximumIndexes](_ => 0);
      bodyBytes := [];
    }

    /** SetIndex: `indexes[index] = value`, which fails past the table. */
    method SetIndex(index: nat, value: nat) returns (outcome: Outcome<Error>)
      requires Valid()
      modifies indexes
      ensures outcome.Pass? <==> index < MaximumIndexes
      ensures outcome.Fail? ==> outcome.error == OutOfRange && unchanged(indexes)
      ensures outcome.Pass? ==> indexes[..] == old(indexes[..])[index := value]
    {
      if index >= indexes.Length {
        return Fail(OutOfRange);
      }
      indexes[index] := value;
      return Pass;
    }

    /** The entry loop of ReadIndex: the first `count` entries of the body written into the table, as LegacyFill writes them. */
    method ReadEntries(count: nat) returns (outcome: Outcome<Error>)
      requires Valid()
      modifies indexes
      ensures var f := LegacyFill(bodyBytes, count, old(indexes[..]), count);
        (outcome.Pass? <==> f.Ok?)
        && (f.Ok? ==> indexes[..] == f.value)
        && (f.Err? ==> outcome == Fail(f.error))
    {
      ghost var indexes0 := indexes[..];
      var itemsCountBytes := count * 4;
      ghost var n := 0;
      var index := 0;
      while index < itemsCountBytes
        invariant index == 4 * n && n <= count
        invariant LegacyFill(bodyBytes, count, indexes0, n) == Ok(indexes[..])
      {
        assert index / 4 == n;
        assert LegacyFill(bodyBytes, count, indexes0, n + 1) == LegacyStep(bodyBytes, count, indexes[..], n);
        var stored := ReadEntry(index / 4, count);
        if stored.Fail? {
          LegacyErrPersists(bodyBytes, count, indexes0, n + 1, count);
          return stored;
        }
        index := index + 4;
        n := n + 1;
      }
      return Pass;
    }

    /** One turn of the entry loop of ReadIndex, for entry `e`. */
    method ReadEntry(e: nat, count: nat) returns (outcome: Outcome<Error>)
      requires Valid() && e < count
      modifies indexes
      ensures var s := LegacyStep(bodyBytes, count, old(indexes[..]), e);
        (outcome.Pass? <==> s.Ok?)
        && (s.Ok? ==> indexes[..] == s.value)
        && (s.Err? ==> outcome == Fail(s.error))
    {
      var index := 4 * e;
      if index >= |bodyBytes| {
        return Fail(OutOfRange);
      }
      var rawValue := bodyBytes[index];
      var isDirect := GetBit(rawValue, 7);
      var indexOffset := rawValue % 128;
      if isDirect {
        outcome := SetIndex(indexOffset, index + 1);
      } else {
        var delta := ToIntegerLimit(bodyBytes, index + 1, 2);
        if delta.Err? {
          return Fail(delta.error);
        }
        outcome := SetIndex(indexOffset, 4 * count + delta.value);
      }
    }

    /**
     * ReadIndex(fileBytes, address): decodes the record into the table as
     * LegacyDecode does, on top of what the table already holds.
     */
    method ReadIndex(fileBytes: seq<byte>, address: nat) returns (outcome: Outcome<Error>)
      requires Valid()
      modifies this, indexes
      ensures Valid()
      ensures var d := LegacyDecode(fileBytes, address, old(indexes[..]));
        && (outcome.Pass? <==> d.Ok?)
        && (d.Ok? ==> bodyBytes == d.value.0 && indexes[..] == d.value.1)
        && (d.Err? ==> outcome == Fail(d.error))
    {
      ghost var d := LegacyDecode(fileBytes, address, indexes[..]);
      ghost var indexes0 := indexes[..];
      var prologue := ReadPrologue(fileBytes, address);
      if prologue.Err? {
        return Fail(prologue.error);
      }
      var bodyLength := prologue.value.0;
      var itemsCount := prologue.value.1;
      var offset := address + PrologueSize;
      if offset + bodyLength > |fileBytes| {
        return Fail(OutOfRange);
      }
      bodyBytes := fileBytes[offset..offset + bodyLength];
      assert d == match LegacyFill(bodyBytes, itemsCount, indexes0, itemsCount)
        case Err(error) => Err(error)
        case Ok(indexes) => Ok((bodyBytes, indexes));
      outcome := ReadEntries(itemsCount);
    }

    /** GetString(index): scans the body from the slot's offset to its terminator. */
    method GetString(index: nat) returns (r: Result<Option<string>, Error>)
      requires Valid()
      ensures r == LegacyString(bodyBytes, indexes[..], index)
    {
      if index >= indexes.Length {
        return Err(OutOfRange);
      }
      var subIndex := indexes[index];
      if subIndex == 0 {
        return Ok(None);
      }
      var end := subIndex;
      while true
        invariant subIndex <= end
        invariant forall k :: subIndex <= k < end ==> k < |bodyBytes| && bodyBytes[k] != 0
        invariant Terminator(bodyBytes, subIndex) == Terminator(bodyBytes, end)
        decreases |bodyBytes| - end
      {
        if end >= |bodyBytes| {
          return Err(OutOfRange);
        }
        var check := bodyBytes[end];
        if check == 0 {
          break;
        }
        end := end + 1;
      }
      return Ok(Some(AsciiDecode(bodyBytes[subIndex..end])));
    }

    /** GetValue(index) on the item's body and table. */
    function GetValue(index: nat): Result<nat, Error>
      reads this, indexes
    {
      LegacyValue(bodyBytes, indexes[..], index)
    }

    /** GetValueLong(index) on the item's body and table. */
    function GetValueLong(index: nat): Result<nat, Error>
      reads this, indexes
    {
      LegacyValueLong(bodyBytes, indexes[..], index)
    }
  }

  /** Once an entry fails, every longer prefix fails the same way. */
  lemma {:induction false} LegacyErrPersists(body: seq<byte>, count: nat, indexes0: seq<nat>, k: nat, m: nat)
    requires |indexes0| == MaximumIndexes
    requires k <= m <= count
    requires LegacyFill(body, count, indexes0, k).Err?
    ensures LegacyFill(body, count, indexes0, m) == LegacyFill(body, count, indexes0, k)
  {
    if m > k {
      LegacyErrPersists(body, count, indexes0, k, m - 1);
    }
  }
}
