/** The application/x-www-form-urlencoded serializer of the WHATWG URL
    Standard (section 5.2), which `URLSearchParams.prototype.toString` uses:
    each name and value is UTF-8 encoded and every byte outside
    `*-._0-9A-Za-z` is written as `%XX` with upper-case hex digits, except
    the space, which becomes `+`; pairs are joined as `name=value` with `&`.
    Beside it stands the matching parser (section 5.1), and the lemmas show
    that parsing a serialization gives back the UTF-8 bytes of every name and
    value, in order. */
module FormUrlencoded {

  type Byte = b: nat | b < 256

  /** The UTF-8 encoding of one Unicode scalar value (RFC 3629, section 3). */
  function CharUtf8(c: char): (bytes: seq<Byte>)
    ensures 1 <= |bytes| <= 4
    ensures (c as int < 0x80) <==> |bytes| == 1
    ensures |bytes| == 1 ==> bytes[0] == c as int
    ensures |bytes| > 1 ==> bytes[0] >= 0xC0
  {
    var cp := c as int;
    if cp < 0x80 then [cp]
    else if cp < 0x800 then [0xC0 + cp / 0x40, 0x80 + cp % 0x40]
    else if cp < 0x10000 then [0xE0 + cp / 0x1000, 0x80 + cp / 0x40 % 0x40, 0x80 + cp % 0x40]
    else [0xF0 + cp / 0x40000, 0x80 + cp / 0x1000 % 0x40, 0x80 + cp / 0x40 % 0x40, 0x80 + cp % 0x40]
  }

  /** The UTF-8 encoding of a string. */
  function Utf8Encode(s: string): seq<Byte>
  {
    if |s| == 0 then [] else CharUtf8(s[0]) + Utf8Encode(s[1..])
  }

  /** Bytes the serializer leaves as they are: `*`, `-`, `.`, digits, ASCII
      letters and `_`, tested range by range in ascending byte order. */
  predicate IsUnreservedByte(b: Byte)
  {
    if b < 0x30 then b == 0x2A || b == 0x2D || b == 0x2E
    else if b < 0x41 then b <= 0x39
    else if b < 0x61 then b <= 0x5A || b == 0x5F
    else b <= 0x7A
  }

  /** The unreserved bytes are exactly the serializer's byte set. */
  lemma UnreservedBytes(b: Byte)
    ensures IsUnreservedByte(b) <==>
      || b == 0x2A || b == 0x2D || b == 0x2E || 0x30 <= b <= 0x39
      || 0x41 <= b <= 0x5A || b == 0x5F || 0x61 <= b <= 0x7A
  {
  }

  /** A character of the serializer's output alphabet: an unreserved byte, `+` or `%`. */
  predicate IsFormChar(c: char)
  {
    (c as int < 0x80 && IsUnreservedByte(c as int)) || c == '+' || c == '%'
  }

  /** The upper-case hexadecimal digit for d. */
  function HexDigit(d: nat): char
    requires d < 16
  {
    if d < 10 then ('0' as int + d) as char else ('A' as int + d - 10) as char
  }

  /** A hexadecimal digit reads back as its value and is an output character. */
  lemma HexDigitValue(d: nat)
    requires d < 16
    ensures IsHexChar(HexDigit(d)) && HexValue(HexDigit(d)) == d
    ensures IsFormChar(HexDigit(d))
  {
  }

  predicate IsHexChar(c: char)
  {
    '0' <= c <= '9' || 'A' <= c <= 'F' || 'a' <= c <= 'f'
  }

  function HexValue(c: char): (d: nat)
    requires IsHexChar(c)
    ensures d < 16
  {
    if '0' <= c <= '9' then c as int - '0' as int
    else if 'A' <= c <= 'F' then c as int - 'A' as int + 10
    else c as int - 'a' as int + 10
  }

  /** The serializer's output for one byte. */
  function EncodeByte(b: Byte): string
  {
    if b == 0x20 then "+"
    else if IsUnreservedByte(b) then [b as char]
    else PercentEncode(b)
  }

  /** `%` and the byte's two upper-case hexadecimal digits. */
  function PercentEncode(b: Byte): string
  {
    ['%', HexDigit(b / 16), HexDigit(b % 16)]
  }

  function EncodeBytes(bytes: seq<Byte>): string
  {
    if |bytes| == 0 then "" else EncodeByte(bytes[0]) + EncodeBytes(bytes[1..])
  }

  /** One byte is written as one to three characters of the output alphabet. */
  lemma EncodeByteAlphabet(b: Byte)
    ensures 1 <= |EncodeByte(b)| <= 3
    ensures forall i :: 0 <= i < |EncodeByte(b)| ==> IsFormChar(EncodeByte(b)[i])
  {
    if b != 0x20 && !IsUnreservedByte(b) {
      HexDigitValue(b / 16);
      HexDigitValue(b % 16);
    }
  }

  /** The encoding of any byte sequence stays within the output alphabet. */
  lemma {:induction false} EncodeBytesAlphabet(bytes: seq<Byte>)
    ensures forall i :: 0 <= i < |EncodeBytes(bytes)| ==> IsFormChar(EncodeBytes(bytes)[i])
  {
    if |bytes| > 0 {
      EncodeBytesAlphabet(bytes[1..]);
      EncodeByteAlphabet(bytes[0]);
      var head := EncodeByte(bytes[0]);
      var tail := EncodeBytes(bytes[1..]);
      assert forall i :: 0 <= i < |head + tail| ==>
        (head + tail)[i] == if i < |head| then head[i] else tail[i - |head|];
    }
  }

  /** The serialization of one name or value. */
  function FormEncode(s: string): (r: string)
    ensures forall i :: 0 <= i < |r| ==> IsFormChar(r[i])
  {
    EncodeBytesAlphabet(Utf8Encode(s));
    EncodeBytes(Utf8Encode(s))
  }

  /** The parser's decoding of one name or value: `+` is a space, `%XX` the
      byte XX, and any other character its UTF-8 bytes (a `%` without two hex
      digits after it stays a literal `%`). */
  function FormDecode(s: string): seq<Byte>
  {
    if |s| == 0 then []
    else if s[0] == '+' then [0x20] + FormDecode(s[1..])
    else if s[0] == '%' && |s| >= 3 && IsHexChar(s[1]) && IsHexChar(s[2]) then
      [16 * HexValue(s[1]) + HexValue(s[2])] + FormDecode(s[3..])
    else CharUtf8(s[0]) + FormDecode(s[1..])
  }

  /** Decoding an encoded byte, then the rest, gives that byte before the decoding of the rest. */
  lemma DecodeEncodeByte(b: Byte, rest: string)
    ensures FormDecode(EncodeByte(b) + rest) == [b] + FormDecode(rest)
  {
    var s := EncodeByte(b) + rest;
    if b == 0x20 {
      assert s[1..] == rest;
    } else if IsUnreservedByte(b) {
      assert s[1..] == rest;
    } else {
      HexDigitValue(b / 16);
      HexDigitValue(b % 16);
      assert s[3..] == rest;
    }
  }

  /** Decoding the encoding of a byte sequence gives the sequence back. */
  lemma {:induction false} DecodeEncodeBytes(bytes: seq<Byte>)
    ensures FormDecode(EncodeBytes(bytes)) == bytes
  {
    if |bytes| > 0 {
      DecodeEncodeByte(bytes[0], EncodeBytes(bytes[1..]));
      DecodeEncodeBytes(bytes[1..]);
    }
  }

  /** Decoding a serialized name or value gives its UTF-8 bytes. */
  lemma FormEncodeRoundTrip(s: string)
    ensures FormDecode(FormEncode(s)) == Utf8Encode(s)
  {
    DecodeEncodeBytes(Utf8Encode(s));
  }

  /** A character the serializer keeps: `*`, `-`, `.`, a digit, an ASCII letter or `_`. */
  predicate IsUnreservedChar(c: char)
  {
    || c == '*' || c == '-' || c == '.' || '0' <= c <= '9'
    || 'A' <= c <= 'Z' || c == '_' || 'a' <= c <= 'z'
  }

  /** True when the serializer keeps every character of s. */
  predicate IsPlainText(s: string)
  {
    forall i :: 0 <= i < |s| ==> IsUnreservedChar(s[i])
  }

  /** A kept character is one UTF-8 byte, which the serializer writes as that character. */
  lemma UnreservedCharVerbatim(c: char)
    requires IsUnreservedChar(c)
    ensures CharUtf8(c) == [c as int]
    ensures IsUnreservedByte(c as int) && EncodeByte(c as int) == [c]
  {
  }

  /** Plain text is serialized verbatim. */
  lemma {:induction false} PlainTextVerbatim(s: string)
    requires IsPlainText(s)
    ensures FormEncode(s) == s
  {
    if |s| > 0 {
      PlainTextVerbatim(s[1..]);
      UnreservedCharVerbatim(s[0]);
      assert Utf8Encode(s) == [s[0] as int] + Utf8Encode(s[1..]);
      assert EncodeBytes(Utf8Encode(s)) == [s[0]] + EncodeBytes(Utf8Encode(s[1..]));
    }
  }

  /** The first position of `sep` in s. */
  function IndexOf(s: string, sep: char): (i: nat)
    requires sep in s
    ensures i < |s| && s[i] == sep
    ensures sep !in s[..i]
  {
    if s[0] == sep then 0 else 1 + IndexOf(s[1..], sep)
  }

  /** The pieces of s between occurrences of `sep` (`"a&b"` gives `["a", "b"]`). */
  function Split(s: string, sep: char): (parts: seq<string>)
    ensures |parts| >= 1
    decreases |s|
  {
    if sep !in s then [s]
    else
      var i := IndexOf(s, sep);
      [s[..i]] + Split(s[i + 1..], sep)
  }

  /** The pieces joined with `sep` between each two. */
  function Join(parts: seq<string>, sep: char): string
  {
    if |parts| == 0 then ""
    else if |parts| == 1 then parts[0]
    else parts[0] + [sep] + Join(parts[1..], sep)
  }

  /** Splitting at `sep` undoes joining pieces that do not contain it. */
  /** A separator with none before it is the first one. */
  lemma {:induction false} FirstIndex(s: string, sep: char, j: nat)
    requires j < |s| && s[j] == sep && sep !in s[..j]
    ensures sep in s && IndexOf(s, sep) == j
  {
    assert s[j] in s;
    if j > 0 {
      assert s[..j] == [s[0]] + s[1..][..j - 1];
      FirstIndex(s[1..], sep, j - 1);
    }
  }

  lemma {:induction false} SplitJoin(parts: seq<string>, sep: char)
    requires |parts| >= 1
    requires forall k :: 0 <= k < |parts| ==> sep !in parts[k]
    ensures Split(Join(parts, sep), sep) == parts
  {
    if |parts| > 1 {
      var s := Join(parts, sep);
      assert s == parts[0] + [sep] + Join(parts[1..], sep);
      assert s[|parts[0]|] == sep;
      assert sep in s;
      var i := |parts[0]|;
      assert s[..i] == parts[0];
      FirstIndex(s, sep, i);
      assert s[i + 1..] == Join(parts[1..], sep);
      SplitJoin(parts[1..], sep);
    }
  }

  /** One `name=value` piece. */
  function PairText(pair: (string, string)): string
  {
    FormEncode(pair.0) + "=" + FormEncode(pair.1)
  }

  function PairTexts(pairs: seq<(string, string)>): (texts: seq<string>)
    ensures |texts| == |pairs|
    ensures forall k :: 0 <= k < |pairs| ==> texts[k] == PairText(pairs[k])
  {
    if |pairs| == 0 then [] else [PairText(pairs[0])] + PairTexts(pairs[1..])
  }

  /** `new URLSearchParams(pairs).toString()`. */
  function Serialize(pairs: seq<(string, string)>): string
  {
    Join(PairTexts(pairs), '&')
  }

  /** The parser's reading of one non-empty piece: name up to the first `=`, value after it. */
  function ParsePair(piece: string): (seq<Byte>, seq<Byte>)
  {
    if '=' in piece then
      var i := IndexOf(piece, '=');
      (FormDecode(piece[..i]), FormDecode(piece[i + 1..]))
    else (FormDecode(piece), [])
  }

  function ParsePieces(pieces: seq<string>): seq<(seq<Byte>, seq<Byte>)>
  {
    if |pieces| == 0 then []
    else (if pieces[0] == "" then [] else [ParsePair(pieces[0])]) + ParsePieces(pieces[1..])
  }

  /** The WHATWG parser's name/value byte pairs of a query string, empty pieces skipped. */
  function ParseQuery(query: string): seq<(seq<Byte>, seq<Byte>)>
  {
    ParsePieces(Split(query, '&'))
  }

  /** The UTF-8 bytes of each name and value. */
  function Utf8Pairs(pairs: seq<(string, string)>): (r: seq<(seq<Byte>, seq<Byte>)>)
    ensures |r| == |pairs|
    ensures forall k :: 0 <= k < |pairs| ==> r[k] == (Utf8Encode(pairs[k].0), Utf8Encode(pairs[k].1))
  {
    if |pairs| == 0 then [] else [(Utf8Encode(pairs[0].0), Utf8Encode(pairs[0].1))] + Utf8Pairs(pairs[1..])
  }

  /** A serialized piece parses back to the UTF-8 bytes of its name and value. */
  lemma ParsePairText(pair: (string, string))
    ensures PairText(pair) != ""
    ensures ParsePair(PairText(pair)) == (Utf8Encode(pair.0), Utf8Encode(pair.1))
  {
    var name := FormEncode(pair.0);
    var value := FormEncode(pair.1);
    var piece := name + "=" + value;
    assert piece[|name|] == '=';
    var i := IndexOf(piece, '=');
    assert piece[..i] == name;
    assert piece[i + 1..] == value;
    FormEncodeRoundTrip(pair.0);
    FormEncodeRoundTrip(pair.1);
  }

  lemma {:induction false} ParsePairTexts(pairs: seq<(string, string)>)
    ensures ParsePieces(PairTexts(pairs)) == Utf8Pairs(pairs)
  {
    if |pairs| > 0 {
      ParsePairText(pairs[0]);
      assert PairTexts(pairs)[1..] == PairTexts(pairs[1..]);
      ParsePairTexts(pairs[1..]);
    }
  }

  /** No serialized piece contains a separator. */
  lemma PairTextHasNoAmpersand(pair: (string, string))
    ensures '&' !in PairText(pair)
  {
    var t := PairText(pair);
    assert forall j :: 0 <= j < |t| ==> IsFormChar(t[j]) || t[j] == '=';
  }

  /** Parsing a serialization yields, in order, the UTF-8 bytes of every name and value. */
  lemma SerializeRoundTrip(pairs: seq<(string, string)>)
    ensures ParseQuery(Serialize(pairs)) == Utf8Pairs(pairs)
  {
    if |pairs| == 0 {
      assert Split("", '&') == [""];
    } else {
      var texts := PairTexts(pairs);
      forall k | 0 <= k < |texts|
        ensures '&' !in texts[k]
      {
        PairTextHasNoAmpersand(pairs[k]);
      }
      SplitJoin(texts, '&');
      ParsePairTexts(pairs);
    }
  }
}
