/**
 * An indexed item of a .dbx file: a record that starts with its own address,
 * then its body length and entry count, followed by a body whose first
 * `count` four-byte entries point at the record's values.
 *
 * Entry e sits at body offset 4*e. The low seven bits of its first byte name
 * the slot it fills. With bit 7 set the entry is direct and its value is the
 * three bytes that follow (offset 4*e + 1). Otherwise the entry is indirect:
 * the two bytes that follow hold the value's offset measured from the end of
 * the entry table (offset 4*count + delta).
 *
 * The specification functions (Step, Fill, DecodeRecord and the readers) are
 * what the class DbxIndexedItem is proved against.
 */
module IndexedItem {
  import opened Wrappers
  import opened Errors
  import opened ByteCodec
  import opened Text

  /** Slots in the index table. */
  const MaximumIndexes: nat := 0x40

  /** Marker, body length and entry count. */
  const PrologueSize: nat := 12

  /** The size recorded for every slot an entry fills. */
  const DefaultSize: int := 3

  predicate IsDirect(raw: byte)
  {
    GetBit(raw, 7)
  }

  /** `raw & 0x7F`. */
  function SlotOf(raw: byte): nat
  {
    raw % 128
  }

  /** Entry `e` can be decoded: its byte exists, its slot fits the table, and an indirect entry has its two offset bytes. */
  predicate EntryOk(body: seq<byte>, e: nat)
  {
    4 * e < |body| && SlotOf(body[4 * e]) < MaximumIndexes
    && (IsDirect(body[4 * e]) || 4 * e + 3 <= |body|)
  }

  /** The body offset entry `e` records for its slot. */
  function EntryOffset(body: seq<byte>, count: nat, e: nat): (r: nat)
    requires EntryOk(body, e)
    requires e < count
    ensures r > 0
  {
    if IsDirect(body[4 * e]) then 4 * e + 1
    else 4 * count + LittleEndian(body[4 * e + 1..4 * e + 3])
  }

  /** The index table while the entries are read, with the loop's two flags. */
  datatype Table = Table(indexes: seq<nat>, sizes: seq<int>, isIndirect: bool, lastIndirect: nat)

  predicate TableOk(t: Table)
  {
    |t.indexes| == MaximumIndexes && |t.sizes| == MaximumIndexes && t.lastIndirect < MaximumIndexes
  }

  /**
   * One turn of the SetIndexes loop, for entry `e`. The slot gets its offset
   * and size 3; an indirect entry also closes the previous indirect slot,
   * whose size becomes the new offset minus that slot's recorded offset.
   * An entry past the body, or a slot outside the table, fails.
   */
  function Step(body: seq<byte>, count: nat, t: Table, e: nat): (r: Result<Table, Error>)
    requires TableOk(t) && e < count
    ensures r.Ok? ==> TableOk(r.value)
    ensures r.Ok? <==> EntryOk(body, e)
    ensures r.Err? ==> r.error == OutOfRange
  {
    if !EntryOk(body, e) then Err(OutOfRange)
    else
      var slot := SlotOf(body[4 * e]);
      var value := EntryOffset(body, count, e);
      var indexes := t.indexes[slot := value];
      var sizes := t.sizes[slot := DefaultSize];
      if IsDirect(body[4 * e]) then Ok(Table(indexes, sizes, t.isIndirect, t.lastIndirect))
      else
        var sizes' := if t.isIndirect then sizes[t.lastIndirect := value - indexes[t.lastIndirect]] else sizes;
        Ok(Table(indexes, sizes', true, slot))
  }

  /** The table after the first `n` entries. */
  function Fill(body: seq<byte>, count: nat, t0: Table, n: nat): (r: Result<Table, Error>)
    requires TableOk(t0) && n <= count
    ensures r.Ok? ==> TableOk(r.value)
    ensures r.Err? ==> r.error == OutOfRange
  {
    if n == 0 then Ok(t0)
    else
      match Fill(body, count, t0, n - 1)
      case Err(error) => Err(error)
      case Ok(t) => Step(body, count, t, n - 1)
  }

  /** Once an entry fails, every longer prefix fails the same way. */
  lemma {:induction false} FillErrPersists(body: seq<byte>, count: nat, t0: Table, k: nat, m: nat)
    requires TableOk(t0)
    requires k <= m <= count
    requires Fill(body, count, t0, k).Err?
    ensures Fill(body, count, t0, m) == Fill(body, count, t0, k)
  {
    if m > k {
      FillErrPersists(body, count, t0, k, m - 1);
    }
  }

  /** The entries are decoded exactly when each of them can be. */
  lemma {:induction false} FillSucceeds(body: seq<byte>, count: nat, t0: Table, n: nat)
    requires TableOk(t0) && n <= count
    ensures Fill(body, count, t0, n).Ok? <==> forall e :: 0 <= e < n ==> EntryOk(body, e)
  {
    if n > 0 {
      FillSucceeds(body, count, t0, n - 1);
    }
  }

  /** The last of the first `n` entries that names slot `s`. */
  function LastEntry(body: seq<byte>, s: nat, n: nat): (r: Option<nat>)
    requires 4 * n <= |body| + 3
    ensures r.Some? ==> r.value < n && SlotOf(body[4 * r.value]) == s
    ensures r.Some? ==> forall k :: r.value < k < n ==> SlotOf(body[4 * k]) != s
    ensures r.None? ==> forall k :: 0 <= k < n ==> SlotOf(body[4 * k]) != s
  {
    if n == 0 then None
    else if SlotOf(body[4 * (n - 1)]) == s then Some(n - 1)
    else LastEntry(body, s, n - 1)
  }

  /** The last indirect entry among the first `n`. */
  function LastIndirect(body: seq<byte>, n: nat): (r: Option<nat>)
    requires 4 * n <= |body| + 3
    ensures r.Some? ==> r.value < n && !IsDirect(body[4 * r.value])
    ensures r.Some? ==> forall k :: r.value < k < n ==> IsDirect(body[4 * k])
    ensures r.None? ==> forall k :: 0 <= k < n ==> IsDirect(body[4 * k])
  {
    if n == 0 then None
    else if !IsDirect(body[4 * (n - 1)]) then Some(n - 1)
    else LastIndirect(body, n - 1)
  }

  /** The loop's flags after `n` entries: whether an indirect entry was seen, and its slot. */
  lemma {:induction false} FillFlags(body: seq<byte>, count: nat, t0: Table, n: nat)
    requires TableOk(t0) && !t0.isIndirect && n <= count
    requires Fill(body, count, t0, n).Ok?
    ensures 4 * n <= |body| + 3
    ensures var t := Fill(body, count, t0, n).value;
      && (t.isIndirect <==> LastIndirect(body, n).Some?)
      && (t.isIndirect ==> t.lastIndirect == SlotOf(body[4 * LastIndirect(body, n).value]))
  {
    if n > 0 {
      FillFlags(body, count, t0, n - 1);
    }
  }

  /**
   * The offset a slot ends up with is the one recorded by the last entry that
   * names it; a slot that no entry names keeps its offset and its size.
   */
  lemma {:induction false} LastEntryWins(body: seq<byte>, count: nat, t0: Table, n: nat, s: nat)
    requires TableOk(t0) && !t0.isIndirect
    requires n <= count && s < MaximumIndexes
    requires Fill(body, count, t0, n).Ok?
    ensures 4 * n <= |body| + 3
    ensures var t := Fill(body, count, t0, n).value;
      match LastEntry(body, s, n)
      case None => t.indexes[s] == t0.indexes[s] && t.sizes[s] == t0.sizes[s]
      case Some(e) => EntryOk(body, e) && t.indexes[s] == EntryOffset(body, count, e)
  {
    if n > 0 {
      FillLast(body, count, t0, n);
      LastEntryWins(body, count, t0, n - 1, s);
      FillFlags(body, count, t0, n - 1);
      LastEntryStep(body, count, t0, Fill(body, count, t0, n - 1).value, Fill(body, count, t0, n).value, n, s);
    }
  }

  /** The inductive step of LastEntryWins, on the tables before and after entry `n - 1`. */
  lemma LastEntryStep(body: seq<byte>, count: nat, t0: Table, prev: Table, cur: Table, n: nat, s: nat)
    requires TableOk(t0) && TableOk(prev) && 0 < n <= count && s < MaximumIndexes
    requires 4 * (n - 1) <= |body| + 3
    requires Step(body, count, prev, n - 1) == Ok(cur)
    requires prev.isIndirect <==> LastIndirect(body, n - 1).Some?
    requires prev.isIndirect ==> prev.lastIndirect == SlotOf(body[4 * LastIndirect(body, n - 1).value])
    requires match LastEntry(body, s, n - 1)
      case None => prev.indexes[s] == t0.indexes[s] && prev.sizes[s] == t0.sizes[s]
      case Some(e) => EntryOk(body, e) && prev.indexes[s] == EntryOffset(body, count, e)
    ensures 4 * n <= |body| + 3
    ensures match LastEntry(body, s, n)
      case None => cur.indexes[s] == t0.indexes[s] && cur.sizes[s] == t0.sizes[s]
      case Some(e) => EntryOk(body, e) && cur.indexes[s] == EntryOffset(body, count, e)
  {
    StepSlot(body, count, prev, cur, n - 1, s);
    if prev.isIndirect && LastEntry(body, s, n).None? {
      var p := LastIndirect(body, n - 1).value;
      assert SlotOf(body[4 * p]) == prev.lastIndirect;
      assert prev.lastIndirect != s;
    }
  }

  /** What one entry does to slot `s`: its offset when the entry names it, and otherwise nothing unless it closes it. */
  lemma StepSlot(body: seq<byte>, count: nat, prev: Table, cur: Table, e: nat, s: nat)
    requires TableOk(prev) && e < count && s < MaximumIndexes
    requires Step(body, count, prev, e) == Ok(cur)
    ensures EntryOk(body, e)
    ensures SlotOf(body[4 * e]) == s ==> cur.indexes[s] == EntryOffset(body, count, e)
    ensures SlotOf(body[4 * e]) != s ==> cur.indexes[s] == prev.indexes[s]
    ensures SlotOf(body[4 * e]) != s && (IsDirect(body[4 * e]) || !prev.isIndirect || prev.lastIndirect != s)
      ==> cur.sizes[s] == prev.sizes[s]
  {
  }

  /** No two of the first `n` entries name the same slot. */
  predicate DistinctSlots(body: seq<byte>, n: nat)
    requires 4 * n <= |body| + 3
  {
    forall j, k :: 0 <= j < k < n ==> SlotOf(body[4 * j]) != SlotOf(body[4 * k])
  }

  /** The first indirect entry after entry `e` among the first `n`. */
  function NextIndirect(body: seq<byte>, e: nat, n: nat): (r: Option<nat>)
    requires 4 * n <= |body| + 3
    ensures r.Some? ==> e < r.value < n && !IsDirect(body[4 * r.value])
    ensures r.Some? ==> forall k :: e < k < r.value ==> IsDirect(body[4 * k])
    ensures r.None? ==> forall k :: e < k < n ==> IsDirect(body[4 * k])
  {
    if n <= e + 1 then None
    else
      match NextIndirect(body, e, n - 1)
      case Some(j) => Some(j)
      case None => if !IsDirect(body[4 * (n - 1)]) then Some(n - 1) else None
  }

  /**
   * The size slot `e`'s entry leaves in table `t` after `n` entries: 3 for a
   * direct entry and for an indirect one with no indirect entry after it;
   * otherwise the distance from its offset to the next indirect entry's.
   */
  predicate SizeHolds(body: seq<byte>, count: nat, t: Table, n: nat, e: nat)
    requires TableOk(t) && e < n <= count && 4 * n <= |body| + 3 && EntryOk(body, e)
  {
    var s := SlotOf(body[4 * e]);
    if IsDirect(body[4 * e]) then t.sizes[s] == DefaultSize
    else
      match NextIndirect(body, e, n)
      case None => t.sizes[s] == DefaultSize
      case Some(j) => EntryOk(body, j) && t.sizes[s] == EntryOffset(body, count, j) - EntryOffset(body, count, e)
  }

  /** The newest entry's slot has size 3, whatever slot it closed. */
  lemma SizeNewest(body: seq<byte>, count: nat, t0: Table, n: nat)
    requires TableOk(t0) && !t0.isIndirect
    requires 0 < n <= count
    requires Fill(body, count, t0, n).Ok?
    requires 4 * n <= |body| + 3 && DistinctSlots(body, n)
    ensures EntryOk(body, n - 1)
    ensures SizeHolds(body, count, Fill(body, count, t0, n).value, n, n - 1)
  {
    var e := n - 1;
    var s := SlotOf(body[4 * e]);
    var prev := Fill(body, count, t0, n - 1).value;
    FillFlags(body, count, t0, n - 1);
    if prev.isIndirect && !IsDirect(body[4 * e]) {
      var p := LastIndirect(body, n - 1).value;
      assert SlotOf(body[4 * p]) == prev.lastIndirect;
      assert prev.lastIndirect != s;
    }
  }

  /** An older entry's size is kept, or fixed by the entry that closes it. */
  lemma SizeOlder(body: seq<byte>, count: nat, t0: Table, n: nat, e: nat)
    requires TableOk(t0) && !t0.isIndirect
    requires e + 1 < n <= count
    requires Fill(body, count, t0, n).Ok?
    requires 4 * n <= |body| + 3 && DistinctSlots(body, n)
    requires EntryOk(body, e) && EntryOk(body, n - 1)
    requires SizeHolds(body, count, Fill(body, count, t0, n - 1).value, n - 1, e)
    ensures SizeHolds(body, count, Fill(body, count, t0, n).value, n, e)
  {
    var s := SlotOf(body[4 * e]);
    FillLast(body, count, t0, n);
    var prev := Fill(body, count, t0, n - 1).value;
    var cur := Fill(body, count, t0, n).value;
    assert Step(body, count, prev, n - 1) == Ok(cur);
    FillFlags(body, count, t0, n - 1);
    OlderOffset(body, count, t0, n, e, n - 1);
    DistinctOthers(body, n, e);
    SizeStep(body, count, prev, cur, n, e);
  }

  /** With distinct slots, entry `e`'s slot holds the offset `e` recorded, after any `m > e` entries. */
  lemma OlderOffset(body: seq<byte>, count: nat, t0: Table, n: nat, e: nat, m: nat)
    requires TableOk(t0) && !t0.isIndirect
    requires e < m <= n <= count && 4 * n <= |body| + 3 && DistinctSlots(body, n) && EntryOk(body, e)
    requires Fill(body, count, t0, m).Ok?
    ensures Fill(body, count, t0, m).value.indexes[SlotOf(body[4 * e])] == EntryOffset(body, count, e)
  {
    DistinctLast(body, n, e, m);
    LastEntryWins(body, count, t0, m, SlotOf(body[4 * e]));
  }

  /** With distinct slots, no entry but `e` names `e`'s slot. */
  lemma DistinctOthers(body: seq<byte>, n: nat, e: nat)
    requires 4 * n <= |body| + 3 && DistinctSlots(body, n) && e < n
    ensures forall j :: 0 <= j < n && j != e ==> SlotOf(body[4 * j]) != SlotOf(body[4 * e])
  {
    forall j | 0 <= j < n && j != e
      ensures SlotOf(body[4 * j]) != SlotOf(body[4 * e])
    {
      if j < e {
        assert SlotOf(body[4 * j]) != SlotOf(body[4 * e]);
      } else {
        assert SlotOf(body[4 * e]) != SlotOf(body[4 * j]);
      }
    }
  }

  /** One step of the fill, seen from an older entry `e` whose slot no other entry names. */
  lemma SizeStep(body: seq<byte>, count: nat, prev: Table, cur: Table, n: nat, e: nat)
    requires TableOk(prev) && e + 1 < n <= count && 4 * n <= |body| + 3
    requires Step(body, count, prev, n - 1) == Ok(cur)
    requires EntryOk(body, e) && EntryOk(body, n - 1)
    requires SizeHolds(body, count, prev, n - 1, e)
    requires prev.isIndirect <==> LastIndirect(body, n - 1).Some?
    requires prev.isIndirect ==> prev.lastIndirect == SlotOf(body[4 * LastIndirect(body, n - 1).value])
    requires prev.indexes[SlotOf(body[4 * e])] == EntryOffset(body, count, e)
    requires forall j :: 0 <= j < n && j != e ==> SlotOf(body[4 * j]) != SlotOf(body[4 * e])
    ensures SizeHolds(body, count, cur, n, e)
  {
    var s := SlotOf(body[4 * e]);
    var last := n - 1;
    assert SlotOf(body[4 * last]) != s;
    if !IsDirect(body[4 * last]) && prev.isIndirect && prev.lastIndirect == s {
      var p := LastIndirect(body, n - 1).value;
      assert SlotOf(body[4 * p]) == s;
      assert p == e;
      SizeClosed(body, count, prev, cur, n, e);
    } else {
      SizeKept(body, count, prev, cur, n, e);
    }
  }

  /** A successful fill of `n` entries is the fill of `n - 1` followed by one step. */
  lemma FillLast(body: seq<byte>, count: nat, t0: Table, n: nat)
    requires TableOk(t0) && 0 < n <= count
    requires Fill(body, count, t0, n).Ok?
    ensures Fill(body, count, t0, n - 1).Ok?
    ensures Step(body, count, Fill(body, count, t0, n - 1).value, n - 1) == Fill(body, count, t0, n)
  {
  }

  /** The newest entry is indirect and closes entry `e`'s slot. */
  lemma SizeClosed(body: seq<byte>, count: nat, prev: Table, cur: Table, n: nat, e: nat)
    requires TableOk(prev) && e + 1 < n <= count && 4 * n <= |body| + 3
    requires Step(body, count, prev, n - 1) == Ok(cur)
    requires EntryOk(body, e) && EntryOk(body, n - 1)
    requires !IsDirect(body[4 * (n - 1)]) && prev.isIndirect && prev.lastIndirect == SlotOf(body[4 * e])
    requires LastIndirect(body, n - 1) == Some(e)
    requires SlotOf(body[4 * (n - 1)]) != SlotOf(body[4 * e])
    requires prev.indexes[SlotOf(body[4 * e])] == EntryOffset(body, count, e)
    ensures SizeHolds(body, count, cur, n, e)
  {
    var s := SlotOf(body[4 * e]);
    var last := n - 1;
    assert NextIndirect(body, e, n - 1) == None;
    assert NextIndirect(body, e, n) == Some(last);
    var slot := SlotOf(body[4 * last]);
    var value := EntryOffset(body, count, last);
    var indexes := prev.indexes[slot := value];
    var sizes := prev.sizes[slot := DefaultSize];
    assert cur == Table(indexes, sizes[s := value as int - indexes[s]], true, slot);
  }

  /** With distinct slots, entry `e` is the last one naming its slot. */
  lemma {:induction false} DistinctLast(body: seq<byte>, n: nat, e: nat, m: nat)
    requires 4 * n <= |body| + 3 && DistinctSlots(body, n)
    requires e < m <= n
    ensures LastEntry(body, SlotOf(body[4 * e]), m) == Some(e)
  {
    if m > e + 1 {
      DistinctLast(body, n, e, m - 1);
      assert SlotOf(body[4 * e]) != SlotOf(body[4 * (m - 1)]);
    }
  }

  /** The newest entry leaves entry `e`'s slot and its next indirect entry alone. */
  lemma SizeKept(body: seq<byte>, count: nat, prev: Table, cur: Table, n: nat, e: nat)
    requires TableOk(prev) && e + 1 < n <= count && 4 * n <= |body| + 3
    requires Step(body, count, prev, n - 1) == Ok(cur)
    requires EntryOk(body, e) && EntryOk(body, n - 1)
    requires SizeHolds(body, count, prev, n - 1, e)
    requires prev.isIndirect <==> LastIndirect(body, n - 1).Some?
    requires prev.isIndirect ==> prev.lastIndirect == SlotOf(body[4 * LastIndirect(body, n - 1).value])
    requires SlotOf(body[4 * (n - 1)]) != SlotOf(body[4 * e])
    requires !(!IsDirect(body[4 * (n - 1)]) && prev.isIndirect && prev.lastIndirect == SlotOf(body[4 * e]))
    ensures SizeHolds(body, count, cur, n, e)
  {
    var s := SlotOf(body[4 * e]);
    var last := n - 1;
    assert cur.sizes[s] == prev.sizes[s];
    if !IsDirect(body[4 * e]) {
      if !IsDirect(body[4 * last]) {
        var p := LastIndirect(body, n - 1).value;
        assert e <= p;
        assert SlotOf(body[4 * p]) != s;
        assert e < p;
        assert NextIndirect(body, e, n - 1).Some?;
      }
      assert NextIndirect(body, e, n) == NextIndirect(body, e, n - 1);
    }
  }

  /**
   * When every entry names its own slot, the sizes follow SizeHolds: an
   * indirect slot's size is the distance to the next indirect entry's
   * offset, and every other filled slot keeps size 3.
   */
  lemma {:induction false} SizeRule(body: seq<byte>, count: nat, t0: Table, n: nat, e: nat)
    requires TableOk(t0) && !t0.isIndirect
    requires e < n <= count
    requires Fill(body, count, t0, n).Ok?
    requires 4 * n <= |body| + 3 && DistinctSlots(body, n)
    ensures EntryOk(body, e)
    ensures SizeHolds(body, count, Fill(body, count, t0, n).value, n, e)
  {
    FillSucceeds(body, count, t0, n);
    if e == n - 1 {
      SizeNewest(body, count, t0, n);
    } else {
      SizeRule(body, count, t0, n - 1, e);
      SizeOlder(body, count, t0, n, e);
    }
  }

  /** A decoded record: its body and its slot table. */
  datatype Record = Record(body: seq<byte>, indexes: seq<nat>, sizes: seq<int>)

  predicate RecordOk(rec: Record)
  {
    |rec.indexes| == MaximumIndexes && |rec.sizes| == MaximumIndexes
  }

  /** The freshly allocated tables of the constructor. */
  function Zeros<T>(n: nat, zero: T): (s: seq<T>)
    ensures |s| == n && forall i :: 0 <= i < n ==> s[i] == zero
  {
    seq(n, _ => zero)
  }

  /** The record's first word, which must be its own address. */
  function Marker(file: seq<byte>, address: nat): nat
    requires address + PrologueSize <= |file|
  {
    LittleEndian(file[address..address + 4])
  }

  /** The record's second word: the length of its body. */
  function BodyLength(file: seq<byte>, address: nat): nat
    requires address + PrologueSize <= |file|
  {
    LittleEndian(file[address + 4..address + 8])
  }

  /** Byte 10 of the record: the number of entries. */
  function EntryCount(file: seq<byte>, address: nat): byte
    requires address + PrologueSize <= |file|
  {
    file[address + 10]
  }

  /**
   * The 12-byte prologue of the record at `address` as SetIndexes takes it
   * apart: the marker compared with the address, then the body length and
   * the entry count.
   */
  method ReadPrologue(fileBytes: seq<byte>, address: nat) returns (r: Result<(nat, nat), Error>)
    ensures address + PrologueSize > |fileBytes| ==> r == Err(OutOfRange)
    ensures address + PrologueSize <= |fileBytes| ==>
      r == if Marker(fileBytes, address) != address then Err(WrongMarker)
           else Ok((BodyLength(fileBytes, address), EntryCount(fileBytes, address) as nat))
  {
    if address + PrologueSize > |fileBytes| {
      return Err(OutOfRange);
    }
    var initialBytes := fileBytes[address..address + PrologueSize];
    var initialArray := ToIntegerArray(initialBytes);
    assert initialBytes[0..4] == fileBytes[address..address + 4];
    assert forall k :: 4 <= k < 8 ==> initialBytes[k] == fileBytes[address + k];
    assert initialBytes[4..8] == fileBytes[address + 4..address + 8];
    if initialArray[0] != address {
      return Err(WrongMarker);
    }
    return Ok((initialArray[1], initialBytes[10] as nat));
  }

  /**
   * SetIndexes on a table that holds `indexes0` and `sizes0`: the record at
   * `address` must open with its own address, its body is copied out, and
   * its entries are read into the table.
   */
  function DecodeRecord(file: seq<byte>, address: nat, indexes0: seq<nat>, sizes0: seq<int>): (r: Result<Record, Error>)
    requires |indexes0| == MaximumIndexes && |sizes0| == MaximumIndexes
    ensures r.Ok? ==> RecordOk(r.value)
    ensures r == Err(WrongMarker) <==>
      address + PrologueSize <= |file| && Marker(file, address) != address
    ensures r.Ok? ==>
      && address + PrologueSize <= |file|
      && address + PrologueSize + BodyLength(file, address) <= |file|
      && Marker(file, address) == address
      && r.value.body == file[address + PrologueSize..address + PrologueSize + BodyLength(file, address)]
    ensures r.Err? ==> r.error in {WrongMarker, OutOfRange}
  {
    if address + PrologueSize > |file| then Err(OutOfRange)
    else if Marker(file, address) != address then Err(WrongMarker)
    else
      var offset := address + PrologueSize;
      var count := EntryCount(file, address);
      if offset + BodyLength(file, address) > |file| then Err(OutOfRange)
      else
        var body := file[offset..offset + BodyLength(file, address)];
        match Fill(body, count, Table(indexes0, sizes0, false, 0), count)
        case Err(error) => Err(error)
        case Ok(t) => Ok(Record(body, t.indexes, t.sizes))
  }

  /** A newly constructed item: the record decoded into zeroed tables. */
  function NewRecord(file: seq<byte>, address: nat): Result<Record, Error>
  {
    DecodeRecord(file, address, Zeros<nat>(MaximumIndexes, 0), Zeros<int>(MaximumIndexes, 0))
  }

  /**
   * What a decoded slot holds: the offset of the last entry naming it, or 0
   * when none does.
   */
  lemma DecodedSlot(file: seq<byte>, address: nat, s: nat)
    requires s < MaximumIndexes
    requires NewRecord(file, address).Ok?
    ensures address + PrologueSize <= |file|
    ensures var rec := NewRecord(file, address).value;
      var count := EntryCount(file, address);
      4 * count <= |rec.body| + 3
      && match LastEntry(rec.body, s, count)
         case None => rec.indexes[s] == 0 && rec.sizes[s] == 0
         case Some(e) => EntryOk(rec.body, e) && rec.indexes[s] == EntryOffset(rec.body, count, e)
  {
    var rec := NewRecord(file, address).value;
    var count := EntryCount(file, address);
    var t0 := Table(Zeros<nat>(MaximumIndexes, 0), Zeros<int>(MaximumIndexes, 0), false, 0);
    assert Fill(rec.body, count, t0, count).Ok?;
    LastEntryWins(rec.body, count, t0, count, s);
  }

  // ---- Reading values out of a record ----

  /** GetValue(index, amount): 0 for a slot never filled, else `amount` bytes at its offset. */
  function Value(rec: Record, index: nat, amount: int): (r: Result<nat, Error>)
    requires RecordOk(rec)
  {
    if index >= MaximumIndexes then Err(OutOfRange)
    else if rec.indexes[index] == 0 then Ok(0)
    else ToIntegerLimit(rec.body, rec.indexes[index], amount)
  }

  /** GetValueLong(index): 0 for a slot never filled, else eight bytes at its offset. */
  function ValueLong(rec: Record, index: nat): (r: Result<nat, Error>)
    requires RecordOk(rec)
  {
    if index >= MaximumIndexes then Err(OutOfRange)
    else if rec.indexes[index] == 0 then Ok(0)
    else ToLong(rec.body, rec.indexes[index])
  }

  /** GetSize(index). */
  function Size(rec: Record, index: nat): (r: Result<int, Error>)
    requires RecordOk(rec)
  {
    if index >= MaximumIndexes then Err(OutOfRange) else Ok(rec.sizes[index])
  }

  /**
   * The three-byte value of a slot of a new record: 0 when no entry names
   * the slot, else the little-endian bytes at the last such entry's offset.
   */
  lemma DecodedValue(file: seq<byte>, address: nat, s: nat)
    requires s < MaximumIndexes
    requires NewRecord(file, address).Ok?
    ensures address + PrologueSize <= |file|
    ensures var rec := NewRecord(file, address).value;
      var count := EntryCount(file, address);
      4 * count <= |rec.body| + 3
      && match LastEntry(rec.body, s, count)
         case None => Value(rec, s, 3) == Ok(0) && ValueLong(rec, s) == Ok(0)
         case Some(e) =>
           EntryOk(rec.body, e)
           && Value(rec, s, 3) == ToIntegerLimit(rec.body, EntryOffset(rec.body, count, e), 3)
           && ValueLong(rec, s) == ToLong(rec.body, EntryOffset(rec.body, count, e))
  {
    DecodedSlot(file, address, s);
  }

  // ---- Strings ----

  /** A decoded string with the encoding LastEncoding holds afterwards. */
  datatype Decoded = Decoded(text: Option<string>, last: Option<Encoding>)

  /** The detected encoding if any, else the preferred one if set, else UTF-8. */
  function ChooseEncoding(detected: Option<Encoding>, preferred: Option<Encoding>): (r: Encoding)
    ensures detected.Some? ==> r == detected.value
    ensures detected.None? && preferred.Some? ==> r == preferred.value
    ensures detected.None? && preferred.None? ==> r == Utf8
  {
    if detected.Some? then detected.value
    else if preferred.Some? then preferred.value
    else Utf8
  }

  /**
   * GetStringDirect(buffer, address, length): null for a null buffer or
   * address 0 (LastEncoding untouched); otherwise the `length` bytes at
   * `address`, decoded in the chosen encoding, which LastEncoding records.
   */
  function DecodeSpan(codec: TextCodec, preferred: Option<Encoding>, last: Option<Encoding>,
                      buffer: Option<seq<byte>>, address: nat, length: int): (r: Result<Decoded, Error>)
    ensures (buffer.None? || address == 0) ==> r == Ok(Decoded(None, last))
    ensures buffer.Some? && address > 0 ==>
      (r.Ok? <==> 0 <= length && address + length <= |buffer.value|)
    ensures r.Ok? && buffer.Some? && address > 0 ==>
      var bytes := buffer.value[address..address + length];
      var encoding := ChooseEncoding(codec.detect(bytes), preferred);
      r.value == Decoded(Some(codec.decode(encoding, bytes)), Some(encoding))
  {
    if buffer.None? || address == 0 then Ok(Decoded(None, last))
    else if length < 0 || address + length > |buffer.value| then Err(OutOfRange)
    else
      var bytes := buffer.value[address..address + length];
      var encoding := ChooseEncoding(codec.detect(bytes), preferred);
      Ok(Decoded(Some(codec.decode(encoding, bytes)), Some(encoding)))
  }

  /** The position of the first zero byte at or after `i`; running off the end fails. */
  function Terminator(buffer: seq<byte>, i: nat): (r: Result<nat, Error>)
    decreases |buffer| - i
    ensures r.Ok? <==> exists k :: i <= k < |buffer| && buffer[k] == 0
    ensures r.Ok? ==> i <= r.value < |buffer| && buffer[r.value] == 0
    ensures r.Ok? ==> forall k :: i <= k < r.value ==> buffer[k] != 0
    ensures r.Err? ==> r.error == OutOfRange
  {
    if i >= |buffer| then Err(OutOfRange)
    else if buffer[i] == 0 then Ok(i)
    else Terminator(buffer, i + 1)
  }

  /** The terminator is the first zero byte: any zero with no zero before it is the one found. */
  lemma TerminatorFirst(buffer: seq<byte>, i: nat, j: nat)
    requires i <= j < |buffer| && buffer[j] == 0
    requires forall k :: i <= k < j ==> buffer[k] != 0
    ensures Terminator(buffer, i) == Ok(j)
  {
  }

  /** The scan of GetStringDirect: walks from `address` to the first zero byte. */
  method FindTerminator(bytes: seq<byte>, address: nat) returns (r: Result<nat, Error>)
    ensures r == Terminator(bytes, address)
  {
    var end := address;
    while true
      invariant address <= end
      invariant Terminator(bytes, address) == Terminator(bytes, end)
      decreases |bytes| - end
    {
      if end >= |bytes| {
        return Err(OutOfRange);
      }
      if bytes[end] == 0 {
        return Ok(end);
      }
      end := end + 1;
    }
  }

  /**
   * GetStringDirect(buffer, address): null for a null buffer or address 0;
   * otherwise the bytes from `address` up to the first zero byte.
   */
  function ZeroTerminated(codec: TextCodec, preferred: Option<Encoding>, last: Option<Encoding>,
                          buffer: Option<seq<byte>>, address: nat): (r: Result<Decoded, Error>)
    ensures (buffer.None? || address == 0) ==> r == Ok(Decoded(None, last))
    ensures r.Ok? && buffer.Some? && address > 0 ==>
      exists end :: address <= end < |buffer.value| && buffer.value[end] == 0
        && (forall k :: address <= k < end ==> buffer.value[k] != 0)
        && r == DecodeSpan(codec, preferred, last, buffer, address, end - address)
    ensures buffer.Some? && address > 0 ==>
      (r.Ok? <==> exists k :: address <= k < |buffer.value| && buffer.value[k] == 0)
  {
    if buffer.None? || address == 0 then Ok(Decoded(None, last))
    else
      match Terminator(buffer.value, address)
      case Err(error) => Err(error)
      case Ok(end) => DecodeSpan(codec, preferred, last, buffer, address, end - address)
  }

  /** GetString(index): the zero-terminated string at the slot's offset in the body. */
  function StringAt(codec: TextCodec, preferred: Option<Encoding>, last: Option<Encoding>,
                    rec: Record, index: nat): (r: Result<Decoded, Error>)
    requires RecordOk(rec)
  {
    if index >= MaximumIndexes then Err(OutOfRange)
    else ZeroTerminated(codec, preferred, last, Some(rec.body), rec.indexes[index])
  }

  /**
   * A string read does not depend on the previous LastEncoding: the text is
   * the same, and a non-null text records the same encoding; a null one
   * keeps the previous encoding.
   */
  lemma StringAtLast(codec: TextCodec, preferred: Option<Encoding>, last1: Option<Encoding>, last2: Option<Encoding>,
                     rec: Record, index: nat)
    requires RecordOk(rec)
    ensures StringAt(codec, preferred, last1, rec, index).Ok? <==> StringAt(codec, preferred, last2, rec, index).Ok?
    ensures StringAt(codec, preferred, last1, rec, index).Ok? ==>
      var d1 := StringAt(codec, preferred, last1, rec, index).value;
      var d2 := StringAt(codec, preferred, last2, rec, index).value;
      && d1.text == d2.text
      && (d1.text.Some? ==> d1.last == d2.last)
      && (d1.text.None? ==> d1.last == last1)
  {
  }

  /** GetString(index) with the encoding bookkeeping dropped. */
  function TextAt(codec: TextCodec, preferred: Option<Encoding>, rec: Record, index: nat): Result<Option<string>, Error>
    requires RecordOk(rec)
  {
    var d :- StringAt(codec, preferred, None, rec, index);
    Ok(d.text)
  }

  /** A string slot no entry fills reads as null and leaves LastEncoding alone. */
  lemma UnfilledString(codec: TextCodec, preferred: Option<Encoding>, last: Option<Encoding>,
                       file: seq<byte>, address: nat, s: nat)
    requires s < MaximumIndexes
    requires NewRecord(file, address).Ok?
    requires address + PrologueSize <= |file|
    requires 4 * EntryCount(file, address) <= |NewRecord(file, address).value.body| + 3
    requires LastEntry(NewRecord(file, address).value.body, s, EntryCount(file, address)).None?
    ensures StringAt(codec, preferred, last, NewRecord(file, address).value, s) == Ok(Decoded(None, last))
  {
    DecodedSlot(file, address, s);
  }

  // ---- The item object ----

  /**
   * DbxIndexedItem: the file's bytes, the two slot tables, the copied body
   * and the encodings used for strings. `codec` stands for the charset
   * detector and the decoders.
   */
  class DbxIndexedItem {
    const fileBytes: seq<byte>
    const codec: TextCodec
    const indexes: array<nat>
    const indexSizes: array<int>
    var bodyBytes: seq<byte>
    var lastEncoding: Option<Encoding>
    var preferredEncoding: Option<Encoding>

    predicate Valid()
      reads this
    {
      indexes.Length == MaximumIndexes && indexSizes.Length == MaximumIndexes
    }

    /** The record the item holds. */
    function Snapshot(): (rec: Record)
      reads this, indexes, indexSizes
      requires Valid()
      ensures RecordOk(rec)
    {
      Record(bodyBytes, indexes[..], indexSizes[..])
    }

    /** The tables as the constructor allocates them, before SetIndexes. */
    constructor Allocate(fileBytes: seq<byte>, codec: TextCodec)
      ensures Valid()
      ensures this.fileBytes == fileBytes && this.codec == codec
      ensures indexes[..] == Zeros<nat>(MaximumIndexes, 0) && indexSizes[..] == Zeros<int>(MaximumIndexes, 0)
      ensures bodyBytes == [] && lastEncoding.None? && preferredEncoding.None?
      ensures fresh(indexes) && fresh(indexSizes)
    {
      this.fileBytes := fileBytes;
      this.codec := codec;
      indexes := new nat[MaximumIndexes](_ => 0);
      indexSizes := new int[MaximumIndexes](_ => 0);
      bodyBytes := [];
      lastEncoding := None;
      preferredEncoding := None;
    }

    /** SetIndex: the slot gets the offset and size 3; a slot past the table fails. */
    method SetIndex(index: nat, value: nat) returns (outcome: Outcome<Error>)
      requires Valid()
      modifies indexes, indexSizes
      ensures outcome.Pass? <==> index < MaximumIndexes
      ensures outcome.Fail? ==> outcome.error == OutOfRange && unchanged(indexes) && unchanged(indexSizes)
      ensures outcome.Pass? ==>
        indexes[..] == old(indexes[..])[index := value]
        && indexSizes[..] == old(indexSizes[..])[index := DefaultSize]
    {
      if index >= indexes.Length {
        return Fail(OutOfRange);
      }
      indexes[index] := value;
      indexSizes[index] := DefaultSize;
      return Pass;
    }

    /** SetIndexSize: the slot's size becomes `offset` minus its recorded offset. */
    method SetIndexSize(index: nat, offset: nat)
      requires Valid()
      modifies indexSizes
      ensures index < MaximumIndexes ==> indexSizes[..] == old(indexSizes[..])[index := offset - indexes[index]]
      ensures index >= MaximumIndexes ==> unchanged(indexSizes)
    {
      if index < indexSizes.Length {
        var size := offset - indexes[index];
        indexSizes[index] := size;
      }
    }

    /** One turn of the SetIndexes loop: entry `e` of the body, read as Step reads it. */
    method ReadEntry(e: nat, count: nat, isIndirect: bool, lastIndirect: nat)
      returns (outcome: Outcome<Error>, isIndirect': bool, lastIndirect': nat)
      requires Valid() && e < count && lastIndirect < MaximumIndexes
      modifies indexes, indexSizes
      ensures var s := Step(bodyBytes, count, Table(old(indexes[..]), old(indexSizes[..]), isIndirect, lastIndirect), e);
        (outcome.Pass? <==> s.Ok?)
        && (s.Ok? ==> s.value == Table(indexes[..], indexSizes[..], isIndirect', lastIndirect'))
        && (s.Err? ==> outcome == Fail(s.error))
    {
      isIndirect', lastIndirect' := isIndirect, lastIndirect;
      var index := 4 * e;
      if index >= |bodyBytes| {
        return Fail(OutOfRange), isIndirect', lastIndirect';
      }
      var rawValue := bodyBytes[index];
      var isDirect := GetBit(rawValue, 7);
      var indexOffset := rawValue % 128;
      if isDirect {
        outcome := SetIndex(indexOffset, index + 1);
      } else {
        var delta := ToIntegerLimit(bodyBytes, index + 1, 2);
        if delta.Err? {
          return Fail(delta.error), isIndirect', lastIndirect';
        }
        var value := 4 * count + delta.value;
        outcome := SetIndex(indexOffset, value);
        if outcome.Fail? {
          return;
        }
        if isIndirect {
          SetIndexSize(lastIndirect, value);
        }
        isIndirect', lastIndirect' := true, indexOffset;
      }
    }

    /**
     * The entry loop of SetIndexes: the first `count` entries of the body
     * read into the tables, as Fill reads them from the tables as they were.
     */
    method ReadEntries(count: nat) returns (outcome: Outcome<Error>)
      requires Valid()
      modifies indexes, indexSizes
      ensures var f := Fill(bodyBytes, count, Table(old(indexes[..]), old(indexSizes[..]), false, 0), count);
        (outcome.Pass? <==> f.Ok?)
        && (f.Ok? ==> indexes[..] == f.value.indexes && indexSizes[..] == f.value.sizes)
        && (f.Err? ==> outcome == Fail(f.error))
    {
      ghost var t0 := Table(indexes[..], indexSizes[..], false, 0);
      var itemsCountBytes := count * 4;
      var isIndirect := false;
      var lastIndirect := 0;
      ghost var n := 0;
      var index := 0;
      while index < itemsCountBytes
        invariant index == 4 * n && n <= count
        invariant Fill(bodyBytes, count, t0, n) == Ok(Table(indexes[..], indexSizes[..], isIndirect, lastIndirect))
      {
        ghost var t := Table(indexes[..], indexSizes[..], isIndirect, lastIndirect);
        assert index / 4 == n;
        assert Fill(bodyBytes, count, t0, n + 1) == Step(bodyBytes, count, t, n);
        var stored;
        stored, isIndirect, lastIndirect := ReadEntry(index / 4, count, isIndirect, lastIndirect);
        if stored.Fail? {
          FillErrPersists(bodyBytes, count, t0, n + 1, count);
          return stored;
        }
        index := index + 4;
        n := n + 1;
      }
      return Pass;
    }

    /**
     * SetIndexes(address): decodes the record at `address` into the tables
     * as DecodeRecord does; a failure reports DecodeRecord's error.
     */
    method SetIndexes(address: nat) returns (outcome: Outcome<Error>)
      requires Valid()
      modifies this, indexes, indexSizes
      ensures Valid()
      ensures lastEncoding == old(lastEncoding) && preferredEncoding == old(preferredEncoding)
      ensures var d := DecodeRecord(fileBytes, address, old(indexes[..]), old(indexSizes[..]));
        (outcome.Pass? <==> d.Ok?)
        && (d.Ok? ==> Snapshot() == d.value)
        && (d.Err? ==> outcome == Fail(d.error))
    {
      ghost var t0 := Table(indexes[..], indexSizes[..], false, 0);
      ghost var d := DecodeRecord(fileBytes, address, indexes[..], indexSizes[..]);
      var prologue := ReadPrologue(fileBytes, address);
      if prologue.Err? {
        return Fail(prologue.error);
      }
      var bodyLength := prologue.value.0;
      var itemsCount := prologue.value.1;
      var offset := address + PrologueSize;
      if offset + bodyLength > |fileBytes| {
        return Fail(OutOfRange);
      }
      bodyBytes := fileBytes[offset..offset + bodyLength];
      assert d == match Fill(bodyBytes, itemsCount, t0, itemsCount)
        case Err(error) => Err(error)
        case Ok(t) => Ok(Record(bodyBytes, t.indexes, t.sizes));
      outcome := ReadEntries(itemsCount);
    }

    /** GetValue(index, amount) on the item's record. */
    function GetValue(index: nat, amount: int): Result<nat, Error>
      reads this, indexes, indexSizes
      requires Valid()
    {
      Value(Snapshot(), index, amount)
    }

    /** GetValueLong(index) on the item's record. */
    function GetValueLong(index: nat): Result<nat, Error>
      reads this, indexes, indexSizes
      requires Valid()
    {
      ValueLong(Snapshot(), index)
    }

    /** GetSize(index) on the item's record. */
    function GetSize(index: nat): Result<int, Error>
      reads this, indexes, indexSizes
      requires Valid()
    {
      Size(Snapshot(), index)
    }

    /** GetStringDirect(buffer, address, length): see DecodeSpan. */
    method GetStringSpan(buffer: Option<seq<byte>>, address: nat, length: int) returns (r: Result<Option<string>, Error>)
      modifies this`lastEncoding
      ensures var d := DecodeSpan(codec, preferredEncoding, old(lastEncoding), buffer, address, length);
        (r.Ok? <==> d.Ok?)
        && (d.Ok? ==> r.value == d.value.text && lastEncoding == d.value.last)
        && (d.Err? ==> r.error == d.error)
    {
      if buffer.None? || address == 0 {
        return Ok(None);
      }
      var bytes := buffer.value;
      if length < 0 || address + length > |bytes| {
        return Err(OutOfRange);
      }
      var stringBytes := bytes[address..address + length];
      var detected := codec.detect(stringBytes);
      var encoding := Utf8;
      if detected.Some? {
        encoding := detected.value;
      } else if preferredEncoding.Some? {
        encoding := preferredEncoding.value;
      }
      lastEncoding := Some(encoding);
      return Ok(Some(codec.decode(encoding, stringBytes)));
    }

    /** GetStringDirect(buffer, address): scans for the terminating zero, then decodes the span. */
    method GetStringDirect(buffer: Option<seq<byte>>, address: nat) returns (r: Result<Option<string>, Error>)
      modifies this`lastEncoding
      ensures var d := ZeroTerminated(codec, preferredEncoding, old(lastEncoding), buffer, address);
        (r.Ok? <==> d.Ok?)
        && (d.Ok? ==> r.value == d.value.text && lastEncoding == d.value.last)
        && (d.Err? ==> r.error == d.error)
    {
      if buffer.None? || address == 0 {
        return Ok(None);
      }
      var found := FindTerminator(buffer.value, address);
      if found.Err? {
        return Err(found.error);
      }
      var length := found.value - address;
      r := GetStringSpan(buffer, address, length);
    }

    /** GetString(index): the zero-terminated string at the slot's offset in the body. */
    method GetString(index: nat) returns (r: Result<Option<string>, Error>)
      requires Valid()
      modifies this`lastEncoding
      ensures var d := StringAt(codec, preferredEncoding, old(lastEncoding), Snapshot(), index);
        (r.Ok? <==> d.Ok?)
        && (d.Ok? ==> r.value == d.value.text && lastEncoding == d.value.last)
        && (d.Err? ==> r.error == d.error)
    {
      if index >= indexes.Length {
        return Err(OutOfRange);
      }
      var subIndex := indexes[index];
      r := GetStringDirect(Some(bodyBytes), subIndex);
    }
  }

  /**
   * The DbxIndexedItem constructor: allocates the tables and decodes the
   * record at `address`; a failure is the constructor's exception.
   */
  method NewIndexedItem(fileBytes: seq<byte>, address: nat, codec: TextCodec) returns (r: Result<DbxIndexedItem, Error>)
    ensures r.Ok? <==> NewRecord(fileBytes, address).Ok?
    ensures r.Err? ==> r.error == NewRecord(fileBytes, address).error
    ensures r.Ok? ==>
      var item := r.value;
      && fresh(item) && fresh(item.indexes) && fresh(item.indexSizes) && item.Valid()
      && item.fileBytes == fileBytes && item.codec == codec
      && item.Snapshot() == NewRecord(fileBytes, address).value
      && item.lastEncoding.None? && item.preferredEncoding.None?
  {
    var item := new DbxIndexedItem.Allocate(fileBytes, codec);
    var outcome := item.SetIndexes(address);
    if outcome.Fail? {
      return Err(outcome.error);
    }
    return Ok(item);
  }
}
