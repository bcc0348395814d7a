/** base64url as in sections 3.2 and 5 of RFC 4648, as Go's `encoding/base64`
    reads and writes it, and the padded-or-not decoding of Gmail data
    (internal/gmailapi/message.go). */
module Base64 {
  import opened Options
  import opened Text
  import opened Utf8

  /** The URL-safe alphabet. */
  predicate InAlphabet(c: char) {
    'A' <= c <= 'Z' || 'a' <= c <= 'z' || '0' <= c <= '9' || c == '-' || c == '_'
  }

  function Value(c: char): (v: nat)
    requires InAlphabet(c)
    ensures v < 64
  {
    if 'A' <= c <= 'Z' then c as int - 'A' as int
    else if 'a' <= c <= 'z' then c as int - 'a' as int + 26
    else if '0' <= c <= '9' then c as int - '0' as int + 52
    else if c == '-' then 62
    else 63
  }

  function Symbol(v: nat): (c: char)
    requires v < 64
    ensures InAlphabet(c) && Value(c) == v
  {
    if v < 26 then ('A' as int + v) as char
    else if v < 52 then ('a' as int + v - 26) as char
    else if v < 62 then ('0' as int + v - 52) as char
    else if v == 62 then '-'
    else '_'
  }

  // ---- one group of up to three bytes ------------------------------------------

  function First(a: int): nat requires 0 <= a < 256 { a / 4 }
  function Second(a: int, b: int): nat requires 0 <= a < 256 && 0 <= b < 256 { a % 4 * 16 + b / 16 }
  function Third(b: int, c: int): nat requires 0 <= b < 256 && 0 <= c < 256 { b % 16 * 4 + c / 64 }
  function Fourth(c: int): nat requires 0 <= c < 256 { c % 64 }

  /** Encoding; `padded` adds `=` up to a multiple of four characters. */
  function Encode(bytes: seq<Byte>, padded: bool): (text: string)
  {
    if |bytes| == 0 then ""
    else if |bytes| == 1 then
      [Symbol(First(bytes[0])), Symbol(Second(bytes[0], 0))] + (if padded then "==" else "")
    else if |bytes| == 2 then
      [Symbol(First(bytes[0])), Symbol(Second(bytes[0], bytes[1])), Symbol(Third(bytes[1], 0))]
      + (if padded then "=" else "")
    else
      [Symbol(First(bytes[0])), Symbol(Second(bytes[0], bytes[1])),
       Symbol(Third(bytes[1], bytes[2])), Symbol(Fourth(bytes[2]))] + Encode(bytes[3..], padded)
  }

  function ByteOne(p: nat, q: nat): Byte requires p < 64 && q < 64 { p * 4 + q / 16 }
  function ByteTwo(q: nat, r: nat): Byte requires q < 64 && r < 64 { q % 16 * 16 + r / 4 }
  function ByteThree(r: nat, s: nat): Byte requires r < 64 && s < 64 { r % 4 * 64 + s }

  predicate AllIn(text: string, n: nat) {
    n <= |text| && forall i :: 0 <= i < n ==> InAlphabet(text[i])
  }

  /** Decoding of text without line breaks. Like Go's default decoder it does not
      look at the unused low bits of the last character. */
  function DecodeGroups(text: string, padded: bool): Option<seq<Byte>> {
    if text == "" then Some([])
    else if AllIn(text, 4) then
      var rest := DecodeGroups(text[4..], padded);
      if rest.None? then None
      else Some([ByteOne(Value(text[0]), Value(text[1])), ByteTwo(Value(text[1]), Value(text[2])),
                 ByteThree(Value(text[2]), Value(text[3]))] + rest.value)
    else if AllIn(text, 3) && text[3..] == (if padded then "=" else "") then
      Some([ByteOne(Value(text[0]), Value(text[1])), ByteTwo(Value(text[1]), Value(text[2]))])
    else if AllIn(text, 2) && text[2..] == (if padded then "==" else "") then
      Some([ByteOne(Value(text[0]), Value(text[1]))])
    else None
  }

  /** Go's decoder skips carriage returns and line feeds wherever they are. */
  function DropBreaks(text: string): string {
    if text == "" then ""
    else (if text[0] == '\r' || text[0] == '\n' then "" else [text[0]]) + DropBreaks(text[1..])
  }

  function Decode(text: string, padded: bool): Option<seq<Byte>> {
    DecodeGroups(DropBreaks(text), padded)
  }

  /** `decodeBase64Data`: unpadded first, then padded. */
  function DecodeData(data: string): Option<seq<Byte>> {
    var data := Trim(data);
    if data == "" then Some([])
    else
      var decoded := Decode(data, false);
      if decoded.Some? then decoded else Decode(data, true)
  }

  // ---- round trips ---------------------------------------------------------------

  lemma GroupBack(a: int, b: int, c: int)
    requires 0 <= a < 256 && 0 <= b < 256 && 0 <= c < 256
    ensures ByteOne(First(a), Second(a, b)) == a
    ensures ByteTwo(Second(a, b), Third(b, c)) == b
    ensures ByteThree(Third(b, c), Fourth(c)) == c
  {}

  lemma {:induction false} DecodeOfEncode(bytes: seq<Byte>, padded: bool)
    ensures DecodeGroups(Encode(bytes, padded), padded) == Some(bytes)
  {
    hide Symbol, Value, First, Second, Third, Fourth, ByteOne, ByteTwo, ByteThree;
    var text := Encode(bytes, padded);
    if |bytes| == 1 {
      GroupBack(bytes[0], 0, 0);
      var group := [Symbol(First(bytes[0])), Symbol(Second(bytes[0], 0))];
      assert text == group + if padded then ['=', '='] else [];
      assert text[..2] == group && text[2..] == if padded then "==" else "";
      assert padded ==> text[2] == '=';
      assert forall i :: 0 <= i < 2 ==> text[i] == group[i];
      assert AllIn(text, 2) && !AllIn(text, 3);
      assert bytes == [bytes[0]];
    } else if |bytes| == 2 {
      GroupBack(bytes[0], bytes[1], 0);
      var group := [Symbol(First(bytes[0])), Symbol(Second(bytes[0], bytes[1])), Symbol(Third(bytes[1], 0))];
      assert text == group + if padded then ['='] else [];
      assert text[..3] == group && text[3..] == if padded then "=" else "";
      assert padded ==> text[3] == '=';
      assert forall i :: 0 <= i < 3 ==> text[i] == group[i];
      assert AllIn(text, 3) && !AllIn(text, 4);
      assert bytes == [bytes[0], bytes[1]];
    } else if |bytes| >= 3 {
      GroupBack(bytes[0], bytes[1], bytes[2]);
      assert text[4..] == Encode(bytes[3..], padded);
      DecodeOfEncode(bytes[3..], padded);
      assert bytes == [bytes[0], bytes[1], bytes[2]] + bytes[3..];
    }
  }

  /** The unpadded decoder refuses padding, so the padded one gets its turn. */
  lemma {:induction false} UnpaddedRefusesPadding(bytes: seq<Byte>)
    ensures DecodeGroups(Encode(bytes, true), false) == if |bytes| % 3 == 0 then Some(bytes) else None
  {
    hide Symbol, Value, First, Second, Third, Fourth, ByteOne, ByteTwo, ByteThree;
    var text := Encode(bytes, true);
    if 0 < |bytes| < 3 {
      assert |text| == 4 && text[3] == '=' && text[2..] != "" && text[3..] != "";
    } else if |bytes| >= 3 {
      GroupBack(bytes[0], bytes[1], bytes[2]);
      assert text[4..] == Encode(bytes[3..], true);
      UnpaddedRefusesPadding(bytes[3..]);
      assert bytes == [bytes[0], bytes[1], bytes[2]] + bytes[3..];
    }
  }

  /** Gmail data decodes to the encoded bytes, whether the encoder padded or not,
      and however the text was wrapped into lines or surrounded by space. */
  lemma DataRoundTrip(data: string, bytes: seq<Byte>, padded: bool)
    requires DropBreaks(Trim(data)) == Encode(bytes, padded)
    ensures DecodeData(data) == Some(bytes)
  {
    DecodeOfEncode(bytes, padded);
    UnpaddedRefusesPadding(bytes);
  }

  lemma {:induction false} EncodedLength(bytes: seq<Byte>, padded: bool)
    ensures |Encode(bytes, padded)| == if padded then (|bytes| + 2) / 3 * 4 else (|bytes| * 4 + 2) / 3
  {
    hide Symbol, First, Second, Third, Fourth;
    if |bytes| >= 3 { EncodedLength(bytes[3..], padded); }
  }

  lemma {:induction false} EncodedAlphabet(bytes: seq<Byte>, padded: bool)
    ensures forall c :: c in Encode(bytes, padded) ==> InAlphabet(c) || (padded && c == '=')
  {
    hide First, Second, Third, Fourth, InAlphabet;
    if |bytes| >= 3 { EncodedAlphabet(bytes[3..], padded); }
  }

  lemma EncodedText(bytes: seq<Byte>, padded: bool)
    ensures DropBreaks(Encode(bytes, padded)) == Encode(bytes, padded)
    ensures forall i :: 0 <= i < |Encode(bytes, padded)| ==>
              InAlphabet(Encode(bytes, padded)[i]) || (padded && Encode(bytes, padded)[i] == '=')
    ensures |Encode(bytes, padded)| == if padded then (|bytes| + 2) / 3 * 4 else (|bytes| * 4 + 2) / 3
  {
    hide Encode;
    EncodedLength(bytes, padded);
    EncodedAlphabet(bytes, padded);
    var text := Encode(bytes, padded);
    forall i | 0 <= i < |text| ensures InAlphabet(text[i]) || (padded && text[i] == '=') {
      assert text[i] in text;
    }
    NoBreaks(text);
  }

  lemma {:induction false} NoBreaks(text: string)
    requires forall i :: 0 <= i < |text| ==> text[i] != '\r' && text[i] != '\n'
    ensures DropBreaks(text) == text
  {
    if text != "" { NoBreaks(text[1..]); }
  }

  /** Both encodings of every byte string decode to it. */
  lemma DataRecoversBothEncodings(bytes: seq<Byte>)
    ensures DecodeData(Encode(bytes, false)) == Some(bytes)
    ensures DecodeData(Encode(bytes, true)) == Some(bytes)
  {
    EncodedTrimmed(bytes, false);
    EncodedTrimmed(bytes, true);
    EncodedText(bytes, false);
    EncodedText(bytes, true);
    DataRoundTrip(Encode(bytes, false), bytes, false);
    DataRoundTrip(Encode(bytes, true), bytes, true);
  }

  lemma EncodedTrimmed(bytes: seq<Byte>, padded: bool)
    ensures Trim(Encode(bytes, padded)) == Encode(bytes, padded)
    ensures bytes != [] ==> Encode(bytes, padded) != ""
  {
    EncodedText(bytes, padded);
  }

  /** The symbols by code point, in the order of table 2 of RFC 4648. */
  lemma SymbolCode(v: nat)
    requires v < 64
    ensures Symbol(v) as int == if v < 26 then 0x41 + v else if v < 52 then 0x61 + (v - 26) else if v < 62 then 0x30 + (v - 52)
                                else if v == 62 then 0x2D else 0x5F
  {}

  /** Three bytes are one number of 24 bits, most significant first, and so are their
      four symbols (section 4 of RFC 4648). */
  lemma GroupNumber(a: Byte, b: Byte, c: Byte)
    ensures First(a) * 0x40000 + Second(a, b) * 0x1000 + Third(b, c) * 0x40 + Fourth(c) == a * 0x10000 + b * 0x100 + c
  {
    assert a == a / 4 * 4 + a % 4 && b == b / 16 * 16 + b % 16 && c == c / 64 * 64 + c % 64;
  }
}
