/**
 * The string operations the engine relies on: .NET white-space tests,
 * Trim, ToUpperInvariant, the ASCII decoder, and an abstract charset
 * detector and decoder standing for the UtfUnknown library and Encoding.GetString.
 */
module Text {
  import opened Wrappers
  import opened ByteCodec

  /** A character encoding, known by name. */
  datatype Encoding = Encoding(name: string)

  const Utf8: Encoding := Encoding("utf-8")

  /**
   * The foreign text machinery: `detect` is the charset detector's verdict on a
   * byte span (None when it detects nothing), `decode` is Encoding.GetString.
   */
  datatype TextCodec = TextCodec(
    detect: seq<byte> -> Option<Encoding>,
    decode: (Encoding, seq<byte>) -> string)

  /** Char.IsWhiteSpace: the Unicode space, line and paragraph separators and the controls U+0009..U+000D, U+0085. */
  predicate IsWhiteSpace(c: char)
  {
    c == ' ' || ('\t' <= c <= '\r') || c == '\U{0085}' || c == '\U{00A0}' || c == '\U{1680}'
    || ('\U{2000}' <= c <= '\U{200A}') || c == '\U{2028}' || c == '\U{2029}' || c == '\U{202F}'
    || c == '\U{205F}' || c == '\U{3000}'
  }

  /** string.IsNullOrWhiteSpace. */
  predicate IsNullOrWhiteSpace(s: Option<string>)
  {
    s.None? || forall i :: 0 <= i < |s.value| ==> IsWhiteSpace(s.value[i])
  }

  function TrimStart(s: string): (r: string)
    ensures |r| <= |s| && r == s[|s| - |r|..]
    ensures r == [] || !IsWhiteSpace(r[0])
    ensures forall i :: 0 <= i < |s| - |r| ==> IsWhiteSpace(s[i])
  {
    if s != [] && IsWhiteSpace(s[0]) then TrimStart(s[1..]) else s
  }

  function TrimEnd(s: string): (r: string)
    ensures |r| <= |s| && r == s[..|r|]
    ensures r == [] || !IsWhiteSpace(r[|r| - 1])
    ensures forall i :: |r| <= i < |s| ==> IsWhiteSpace(s[i])
  {
    if s != [] && IsWhiteSpace(s[|s| - 1]) then TrimEnd(s[..|s| - 1]) else s
  }

  /** string.Trim: the white space at both ends removed. */
  function Trim(s: string): string
  {
    TrimEnd(TrimStart(s))
  }

  /** A trimmed string is a slice of the original with no white space at either end. */
  lemma TrimIsSlice(s: string)
    ensures exists i, j :: 0 <= i <= j <= |s| && Trim(s) == s[i..j]
    ensures Trim(s) == [] || (!IsWhiteSpace(Trim(s)[0]) && !IsWhiteSpace(Trim(s)[|Trim(s)| - 1]))
  {
    var t := TrimStart(s);
    var r := TrimEnd(t);
    var k := |s| - |t|;
    assert t == s[k..] && r == t[..|r|];
    assert r == s[k..k + |r|];
    if r != [] {
      assert r[0] == t[0];
    }
  }

  /** A string that is not blank keeps at least one character after Trim. */
  lemma TrimNotBlank(s: string)
    requires !IsNullOrWhiteSpace(Some(s))
    ensures Trim(s) != []
  {
    var t := TrimStart(s);
    var i :| 0 <= i < |s| && !IsWhiteSpace(s[i]);
    assert i >= |s| - |t|;
    assert t != [];
  }

  /**
   * The invariant upper case of a Latin-1 character: a..z and à..þ (but for
   * ÷) move down by 0x20, µ becomes Greek capital mu and ÿ becomes Ÿ; every
   * other character, ß included, is kept.
   */
  function UpperChar(c: char): (u: char)
    ensures c < '\U{0100}' && u != c ==> IsLower(c)
    ensures IsLower(c) ==> u != c && !IsLower(u)
  {
    if 'a' <= c <= 'z' || ('\U{00E0}' <= c <= '\U{00FE}' && c != '\U{00F7}') then (c as int - 32) as char
    else if c == '\U{00B5}' then '\U{039C}'
    else if c == '\U{00FF}' then '\U{0178}'
    else c
  }

  /** The Latin-1 lower-case letters that have an upper case of their own. */
  predicate IsLower(c: char)
  {
    'a' <= c <= 'z' || ('\U{00E0}' <= c <= '\U{00FE}' && c != '\U{00F7}') || c == '\U{00B5}' || c == '\U{00FF}'
  }

  /** string.ToUpperInvariant over the Latin-1 letters. */
  function ToUpperInvariant(s: string): (r: string)
    ensures |r| == |s|
    ensures forall i :: 0 <= i < |s| ==> r[i] == UpperChar(s[i])
  {
    seq(|s|, i requires 0 <= i < |s| => UpperChar(s[i]))
  }

  /** Upper-casing is idempotent. */
  lemma UpperIdempotent(s: string)
    ensures ToUpperInvariant(ToUpperInvariant(s)) == ToUpperInvariant(s)
  {
  }

  /** Upper-casing works character by character, so it distributes over concatenation. */
  lemma UpperAppend(a: string, b: string)
    ensures ToUpperInvariant(a + b) == ToUpperInvariant(a) + ToUpperInvariant(b)
  {
    var r := ToUpperInvariant(a + b);
    assert forall i :: 0 <= i < |a| ==> r[i] == UpperChar(a[i]);
    assert forall i :: |a| <= i < |a| + |b| ==> r[i] == UpperChar(b[i - |a|]);
  }

  /** The folder file name "gelöschte objekte.dbx", upper-cased as the folders file records it. */
  lemma UpperFixture()
    ensures ToUpperInvariant("gel\U{00F6}" + "schte" + " obj" + "ekte" + ".dbx")
      == "GEL\U{00D6}" + "SCHTE" + " OBJ" + "EKTE" + ".DBX"
  {
    UpperAppend("gel\U{00F6}", "schte");
    UpperAppend("gel\U{00F6}" + "schte", " obj");
    UpperAppend("gel\U{00F6}" + "schte" + " obj", "ekte");
    UpperAppend("gel\U{00F6}" + "schte" + " obj" + "ekte", ".dbx");
    assert ToUpperInvariant("gel\U{00F6}") == "GEL\U{00D6}";
    assert ToUpperInvariant("schte") == "SCHTE";
    assert ToUpperInvariant(" obj") == " OBJ";
    assert ToUpperInvariant("ekte") == "EKTE";
    assert ToUpperInvariant(".dbx") == ".DBX";
  }

  /** Encoding.ASCII.GetString: bytes above 0x7F become '?'. */
  function AsciiDecode(bytes: seq<byte>): (r: string)
    ensures |r| == |bytes|
    ensures forall i :: 0 <= i < |bytes| && bytes[i] < 128 ==> r[i] as int == bytes[i]
    ensures forall i :: 0 <= i < |bytes| && bytes[i] >= 128 ==> r[i] == '?'
  {
    seq(|bytes|, i requires 0 <= i < |bytes| => if bytes[i] < 128 then bytes[i] as char else '?')
  }
}
