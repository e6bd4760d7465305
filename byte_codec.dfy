/**
 * Little-endian reading of byte buffers, as the BitBytes helpers do.
 * The helpers themselves are not part of this model; their behaviour is fixed
 * by the test vectors of the repository: bits are numbered from the least
 * significant one, and multi-byte integers are little-endian.
 */
module ByteCodec {
  import opened Wrappers
  import opened Errors

  type byte = b: int | 0 <= b < 256

  function Pow256(n: nat): (r: nat)
    ensures r >= 1
  {
    if n == 0 then 1 else 256 * Pow256(n - 1)
  }

  function Pow2(n: nat): (r: nat)
    ensures r >= 1
  {
    if n == 0 then 1 else 2 * Pow2(n - 1)
  }

  /** The unsigned integer whose little-endian encoding is `s`. */
  function LittleEndian(s: seq<byte>): nat
  {
    if s == [] then 0 else s[0] + 256 * LittleEndian(s[1..])
  }

  /** The `width` least significant bytes of `n`, least significant first. */
  function ToBytes(n: nat, width: nat): (s: seq<byte>)
    ensures |s| == width
  {
    if width == 0 then [] else [n % 256] + ToBytes(n / 256, width - 1)
  }

  lemma {:induction false} LittleEndianBound(s: seq<byte>)
    ensures LittleEndian(s) < Pow256(|s|)
  {
    if s != [] {
      LittleEndianBound(s[1..]);
    }
  }

  /** Encoding a value that fits, then decoding it, gives the value back. */
  lemma {:induction false} DecodeEncode(n: nat, width: nat)
    requires n < Pow256(width)
    ensures LittleEndian(ToBytes(n, width)) == n
  {
    if width > 0 {
      DecodeEncode(n / 256, width - 1);
      assert ToBytes(n, width)[1..] == ToBytes(n / 256, width - 1);
    }
  }

  /** Decoding a byte string, then encoding it at its own width, gives it back. */
  lemma {:induction false} EncodeDecode(s: seq<byte>)
    ensures ToBytes(LittleEndian(s), |s|) == s
  {
    if s != [] {
      EncodeDecode(s[1..]);
      ByteSplit(s[0], LittleEndian(s[1..]));
      assert ToBytes(LittleEndian(s), |s|) == [s[0]] + ToBytes(LittleEndian(s[1..]), |s| - 1);
    }
  }

  /** The low byte and the rest of `low + 256 * high`. */
  lemma ByteSplit(low: byte, high: nat)
    ensures (low + 256 * high) % 256 == low && (low + 256 * high) / 256 == high
  {
  }

  /** Bit `index` of `b`, counting from the least significant bit. */
  function GetBit(b: byte, index: nat): bool
    requires index < 8
  {
    (b / Pow2(index)) % 2 == 1
  }

  /** Bit 7 is set exactly in the upper half of the byte range. */
  lemma TopBit(b: byte)
    ensures GetBit(b, 7) <==> b >= 128
  {
    assert Pow2(7) == 128;
  }

  /**
   * ToIntegerLimit: the `amount` bytes at `offset` as an unsigned 32-bit integer.
   * Reading past the end throws; widths outside 0..4 do not fit a uint.
   */
  function ToIntegerLimit(bytes: seq<byte>, offset: nat, amount: int): (r: Result<nat, Error>)
    ensures r.Ok? <==> 0 <= amount <= 4 && offset + amount <= |bytes|
    ensures r.Ok? ==> r.value == LittleEndian(bytes[offset..offset + amount])
    ensures r.Ok? ==> r.value < Pow256(amount)
  {
    if amount < 0 || amount > 4 || offset + amount > |bytes| then Err(OutOfRange)
    else
      LittleEndianBound(bytes[offset..offset + amount]);
      Ok(LittleEndian(bytes[offset..offset + amount]))
  }

  /** ToInteger: the four bytes at `offset`. */
  function ToInteger(bytes: seq<byte>, offset: nat): Result<nat, Error>
  {
    ToIntegerLimit(bytes, offset, 4)
  }

  /** ToShort: the two bytes at `offset`. */
  function ToShort(bytes: seq<byte>, offset: nat): Result<nat, Error>
  {
    ToIntegerLimit(bytes, offset, 2)
  }

  /** ToLong: the eight bytes at `offset` as an unsigned 64-bit integer. */
  function ToLong(bytes: seq<byte>, offset: nat): (r: Result<nat, Error>)
    ensures r.Ok? <==> offset + 8 <= |bytes|
    ensures r.Ok? ==> r.value == LittleEndian(bytes[offset..offset + 8])
  {
    if offset + 8 > |bytes| then Err(OutOfRange)
    else Ok(LittleEndian(bytes[offset..offset + 8]))
  }

  /** The little-endian word at word position `k`. */
  function Word(bytes: seq<byte>, k: nat): nat
    requires 4 * k + 4 <= |bytes|
  {
    LittleEndian(bytes[4 * k..4 * k + 4])
  }

  /** ToIntegerArray: the buffer read as whole little-endian words; a trailing partial word is dropped. */
  function ToIntegerArray(bytes: seq<byte>): (words: seq<nat>)
    ensures |words| == |bytes| / 4
    ensures forall k :: 0 <= k < |words| ==> words[k] == Word(bytes, k)
  {
    seq(|bytes| / 4, k requires 0 <= k < |bytes| / 4 => Word(bytes, k))
  }

  /** Words of two buffers agree wherever the buffers agree on the word's four bytes. */
  lemma WordsAgree(a: seq<byte>, b: seq<byte>, k: nat)
    requires 4 * k + 4 <= |a| && 4 * k + 4 <= |b|
    requires a[4 * k..4 * k + 4] == b[4 * k..4 * k + 4]
    ensures Word(a, k) == Word(b, k)
  {
  }

  /** The byte string of the test fixtures for the integer helpers. */
  const IntegerFixture: seq<byte> := [0x05, 0x1d, 0x00, 0x00, 0x86, 0x29, 0x00, 0x04, 0x64, 0x69]

  /** The fixture of the ToIntegerLimit test: byte 6 is 0x01. */
  const LimitFixture: seq<byte> := [0x05, 0x1d, 0x00, 0x00, 0x86, 0x29, 0x01, 0x04, 0x64, 0x69]

  lemma IntegerFixtures()
    ensures ToInteger(IntegerFixture, 4) == Ok(0x4002986)
    ensures ToShort(IntegerFixture, 4) == Ok(0x2986)
    ensures ToLong(IntegerFixture, 2) == Ok(0x6964040029860000)
    ensures ToIntegerLimit(LimitFixture, 4, 3) == Ok(0x12986)
  {
    IntegerFixtureWord();
    IntegerFixtureLong();
    LimitFixtureWord();
  }

  /** The 68-byte fixture of the ToIntegerArray test: a folder record with its body. */
  const ArrayFixture: seq<byte> :=
      [0x00, 0x00, 0x00, 0x00, 0x38, 0x00, 0x00, 0x00, 0x00, 0x00]
    + [0x04, 0x01, 0x80, 0x11, 0x00, 0x00, 0x02, 0x00, 0x00, 0x00]
    + [0x05, 0x1d, 0x00, 0x00, 0x86, 0x29, 0x00, 0x04, 0x64, 0x69]
    + [0x73, 0x63, 0x75, 0x73, 0x73, 0x69, 0x6f, 0x6e, 0x2e, 0x66]
    + [0x61, 0x73, 0x74, 0x61, 0x6E, 0x64, 0x66, 0x75, 0x72, 0x69]
    + [0x75, 0x73, 0x2e, 0x63, 0x6f, 0x6d, 0x00, 0x30, 0x30, 0x30]
    + [0x30, 0x30, 0x30, 0x31, 0x37, 0x00, 0x00, 0x00]

  /** The ToIntegerArray test: 0x11 words, word 1 being 0x38. */
  lemma ArrayFixtureWords()
    ensures |ToIntegerArray(ArrayFixture)| == 0x11
    ensures ToIntegerArray(ArrayFixture)[1] == 0x38
  {
    var head: seq<byte> := [0x00, 0x00, 0x00, 0x00, 0x38, 0x00, 0x00, 0x00, 0x00, 0x00];
    assert ArrayFixture[..10] == head;
    assert ArrayFixture[4..8] == head[4..8] == [0x38, 0x00, 0x00, 0x00];
    assert Word(ArrayFixture, 1) == LittleEndian([0x38, 0x00, 0x00, 0x00]) == 0x38;
  }

  lemma IntegerFixtureWord()
    ensures ToInteger(IntegerFixture, 4) == Ok(0x4002986)
    ensures ToShort(IntegerFixture, 4) == Ok(0x2986)
  {
    assert IntegerFixture[4..8] == [0x86, 0x29, 0x00, 0x04];
  }

  lemma IntegerFixtureLong()
    ensures ToLong(IntegerFixture, 2) == Ok(0x6964040029860000)
  {
    assert IntegerFixture[2..10] == [0x00, 0x00, 0x86, 0x29, 0x00, 0x04, 0x64, 0x69];
  }

  lemma LimitFixtureWord()
    ensures ToIntegerLimit(LimitFixture, 4, 3) == Ok(0x12986)
  {
    assert LimitFixture[4..7] == [0x86, 0x29, 0x01];
    assert LittleEndian([0x86, 0x29, 0x01]) == 0x12986;
  }

  lemma BitFixtures()
    ensures GetBit(64, 6) && !GetBit(63, 6) && !GetBit(128, 6)
  {
    assert Pow2(6) == 64;
  }
}
