/** UTF-8 as in section 4 of RFC 3629, and the byte-capped truncation of message
    bodies (internal/gmailapi/message.go). */
module Utf8 {

  type Byte = x: int | 0 <= x < 256

  predicate IsTail(b: Byte) {
    0x80 <= b <= 0xBF
  }

  /** The length of the well-formed character that the bytes start with, or 0. */
  function Lead(s: seq<Byte>): (n: nat)
    ensures n <= |s| && n <= 4
  {
    if |s| >= 1 && s[0] <= 0x7F then 1
    else if |s| >= 2 && 0xC2 <= s[0] <= 0xDF && IsTail(s[1]) then 2
    else if |s| >= 3 && IsTail(s[1]) && IsTail(s[2]) && 0xE0 <= s[0] <= 0xEF
            && (s[0] == 0xE0 ==> s[1] >= 0xA0) && (s[0] == 0xED ==> s[1] <= 0x9F) then 3
    else if |s| >= 4 && IsTail(s[1]) && IsTail(s[2]) && IsTail(s[3]) && 0xF0 <= s[0] <= 0xF4
            && (s[0] == 0xF0 ==> s[1] >= 0x90) && (s[0] == 0xF4 ==> s[1] <= 0x8F) then 4
    else 0
  }

  /** `utf8.Valid`. */
  predicate Valid(s: seq<Byte>) {
    s == [] || (Lead(s) > 0 && Valid(s[Lead(s)..]))
  }

  // ---- encoding and decoding -----------------------------------------------------

  function EncodeChar(c: char): (b: seq<Byte>)
    ensures 1 <= |b| <= 4 && Lead(b) == |b|
  {
    var n := c as int;
    Sextets(n);
    if n < 0x80 then [n]
    else if n < 0x800 then [0xC0 + n / 0x40, 0x80 + n % 0x40]
    else if n < 0x10000 then [0xE0 + n / 0x1000, 0x80 + n / 0x40 % 0x40, 0x80 + n % 0x40]
    else [0xF0 + n / 0x40000, 0x80 + n / 0x1000 % 0x40, 0x80 + n / 0x40 % 0x40, 0x80 + n % 0x40]
  }

  function DecodeChar(s: seq<Byte>): char
    requires Lead(s) > 0
  {
    var at := (i: nat) => if i < |s| then s[i] as int else 0;
    match Lead(s)
    case 1 => at(0) as char
    case 2 => ((at(0) - 0xC0) * 0x40 + (at(1) - 0x80)) as char
    case 3 => ((at(0) - 0xE0) * 0x1000 + (at(1) - 0x80) * 0x40 + (at(2) - 0x80)) as char
    case _ => ((at(0) - 0xF0) * 0x40000 + (at(1) - 0x80) * 0x1000 + (at(2) - 0x80) * 0x40 + (at(3) - 0x80)) as char
  }

  function Encode(text: string): seq<Byte> {
    if text == [] then [] else EncodeChar(text[0]) + Encode(text[1..])
  }

  function Decode(s: seq<Byte>): string
    requires Valid(s)
  {
    if s == [] then [] else [DecodeChar(s)] + Decode(s[Lead(s)..])
  }

  lemma LeadOfPrefix(a: seq<Byte>, b: seq<Byte>)
    requires Lead(a) > 0
    ensures Lead(a + b) == Lead(a)
  {}

  lemma DecodeOfEncodeChar(c: char, rest: seq<Byte>)
    ensures Lead(EncodeChar(c) + rest) == |EncodeChar(c)|
    ensures DecodeChar(EncodeChar(c) + rest) == c
  {
    var b := EncodeChar(c);
    LeadOfPrefix(b, rest);
    assert DecodeChar(b + rest) == DecodeChar(b);
    DecodeOfEncodedAlone(c);
  }

  lemma Sextets(n: nat)
    ensures n / 0x1000 == n / 0x40 / 0x40 && n / 0x40000 == n / 0x40 / 0x40 / 0x40
    ensures n == n / 0x40 * 0x40 + n % 0x40
    ensures n == n / 0x1000 * 0x1000 + n / 0x40 % 0x40 * 0x40 + n % 0x40
    ensures n == n / 0x40000 * 0x40000 + n / 0x1000 % 0x40 * 0x1000 + n / 0x40 % 0x40 * 0x40 + n % 0x40
  {}

  lemma DecodeOfEncodedAlone(c: char)
    ensures DecodeChar(EncodeChar(c)) == c
  {
    hide Lead;
    Sextets(c as int);
  }

  lemma {:induction false} DecodeOfEncode(text: string)
    ensures Valid(Encode(text)) && Decode(Encode(text)) == text
  {
    if text != [] {
      var head, rest := EncodeChar(text[0]), Encode(text[1..]);
      DecodeOfEncode(text[1..]);
      DecodeOfEncodeChar(text[0], rest);
      assert (head + rest)[|head|..] == rest;
      assert [text[0]] + text[1..] == text;
    }
  }

  lemma {:induction false} EncodeConcat(a: string, b: string)
    ensures Encode(a + b) == Encode(a) + Encode(b)
  {
    hide EncodeChar;
    if a == [] {
      assert a + b == b;
    } else {
      assert (a + b)[1..] == a[1..] + b;
      EncodeConcat(a[1..], b);
    }
  }

  lemma {:induction false} EncodeAscii(s: string)
    requires forall i :: 0 <= i < |s| ==> s[i] as int < 0x80
    ensures |Encode(s)| == |s|
  {
    if s != [] { EncodeAscii(s[1..]); }
  }

  lemma EncodeOne(a: int)
    requires 0 <= a < 0x80
    ensures EncodeChar(a as char) == [a]
  {}

  lemma EncodeTwo(a: int, b: int)
    requires 2 <= a < 0x20 && 0 <= b < 0x40
    ensures EncodeChar((a * 0x40 + b) as char) == [0xC0 + a, 0x80 + b]
  {
    Digits(a, b);
  }

  lemma EncodeThree(a: int, b: int, c: int)
    requires 0 <= a < 0x10 && 0 <= b < 0x40 && 0 <= c < 0x40
    requires (a == 0 ==> b >= 0x20) && (a == 0xD ==> b < 0x20)
    ensures EncodeChar((a * 0x1000 + b * 0x40 + c) as char) == [0xE0 + a, 0x80 + b, 0x80 + c]
  {
    var n := a * 0x1000 + b * 0x40 + c;
    Digits(a * 0x40 + b, c);
    Digits(a, b);
    assert n / 0x1000 == n / 0x40 / 0x40;
  }

  lemma EncodeFour(a: int, b: int, c: int, d: int)
    requires 0 <= a < 5 && 0 <= b < 0x40 && 0 <= c < 0x40 && 0 <= d < 0x40
    requires (a == 0 ==> b >= 0x10) && (a == 4 ==> b < 0x10)
    ensures EncodeChar((a * 0x40000 + b * 0x1000 + c * 0x40 + d) as char) == [0xF0 + a, 0x80 + b, 0x80 + c, 0x80 + d]
  {
    var n := a * 0x40000 + b * 0x1000 + c * 0x40 + d;
    Digits((a * 0x40 + b) * 0x40 + c, d);
    Digits(a * 0x40 + b, c);
    Digits(a, b);
    assert n / 0x1000 == n / 0x40 / 0x40 && n / 0x40000 == n / 0x40 / 0x40 / 0x40;
  }

  lemma EncodeOfDecodeChar(s: seq<Byte>)
    requires Lead(s) > 0
    ensures EncodeChar(DecodeChar(s)) == s[..Lead(s)]
  {
    hide EncodeChar;
    var a: int := s[0];
    var b: int := if |s| > 1 then s[1] else 0x80;
    var c: int := if |s| > 2 then s[2] else 0x80;
    var d: int := if |s| > 3 then s[3] else 0x80;
    if Lead(s) == 2 {
      EncodeTwo(a - 0xC0, b - 0x80);
    } else if Lead(s) == 3 {
      EncodeThree(a - 0xE0, b - 0x80, c - 0x80);
    } else if Lead(s) == 4 {
      EncodeFour(a - 0xF0, b - 0x80, c - 0x80, d - 0x80);
    } else {
      EncodeOne(a);
    }
  }

  lemma Digits(high: int, low: int)
    requires 0 <= low < 0x40
    ensures (high * 0x40 + low) / 0x40 == high && (high * 0x40 + low) % 0x40 == low
  {}

  /** The valid byte strings are exactly the encodings of strings. */
  lemma {:induction false} EncodeOfDecode(s: seq<Byte>)
    requires Valid(s)
    ensures Encode(Decode(s)) == s
  {
    if s != [] {
      EncodeOfDecodeChar(s);
      hide DecodeChar, EncodeChar, Lead;
      EncodeOfDecode(s[Lead(s)..]);
      assert ([DecodeChar(s)] + Decode(s[Lead(s)..]))[1..] == Decode(s[Lead(s)..]);
    }
  }

  // ---- truncation ------------------------------------------------------------------

  /** Bytes taken off the end until what is left is valid. */
  function Shrink(data: seq<Byte>): seq<Byte> {
    if data == [] || Valid(data) then data else Shrink(data[..|data| - 1])
  }

  function Truncated(value: seq<Byte>, maxBytes: int): (seq<Byte>, bool) {
    if maxBytes <= 0 then ([], value != [])
    else if |value| <= maxBytes then (value, false)
    else (Shrink(value[..maxBytes]), true)
  }

  method TruncateUTF8(value: seq<Byte>, maxBytes: int) returns (text: seq<Byte>, truncated: bool)
    ensures (text, truncated) == Truncated(value, maxBytes)
  {
    if maxBytes <= 0 {
      if value == [] {
        return [], false;
      }
      return [], true;
    }
    var data := value;
    if |data| <= maxBytes {
      return value, false;
    }
    data := data[..maxBytes];
    while |data| > 0 && !Valid(data)
      invariant Shrink(data) == Shrink(value[..maxBytes])
    {
      data := data[..|data| - 1];
    }
    return data, true;
  }

  /** The prefix of length `n` is the longest valid one within the cap. */
  ghost predicate LongestValid(value: seq<Byte>, cap: nat, n: nat)
    requires cap <= |value|
  {
    n <= cap && Valid(value[..n]) && forall k :: n < k <= cap ==> !Valid(value[..k])
  }

  lemma {:induction false} ShrinkIsLongest(value: seq<Byte>, cap: nat, n: nat)
    requires n <= cap <= |value| && forall k :: n < k <= cap ==> !Valid(value[..k])
    ensures Shrink(value[..n]) <= value && LongestValid(value, cap, |Shrink(value[..n])|)
  {
    if n > 0 && !Valid(value[..n]) {
      assert value[..n][..n - 1] == value[..n - 1];
      ShrinkIsLongest(value, cap, n - 1);
    }
  }

  /** What truncation gives: the text itself when it fits, else the longest valid
      prefix within the cap. */
  lemma TruncatedMeans(value: seq<Byte>, maxBytes: int)
    ensures var (text, truncated) := Truncated(value, maxBytes);
            && text <= value
            && (truncated <==> |value| > if maxBytes > 0 then maxBytes else 0)
            && (!truncated ==> text == value)
            && (truncated && maxBytes > 0 ==> LongestValid(value, maxBytes, |text|))
  {
    if 0 < maxBytes < |value| {
      ShrinkIsLongest(value, maxBytes, maxBytes);
    }
  }

  /** What follows a valid prefix of valid text is valid: the cut is between two characters. */
  lemma {:induction false} ValidAppend(a: seq<Byte>, b: seq<Byte>)
    requires Valid(a)
    ensures Valid(a + b) <==> Valid(b)
  {
    if a == [] {
      assert a + b == b;
    } else {
      LeadOfPrefix(a, b);
      assert (a + b)[Lead(a)..] == a[Lead(a)..] + b;
      ValidAppend(a[Lead(a)..], b);
    }
  }

  lemma FirstCharValid(value: seq<Byte>)
    requires Lead(value) > 0
    ensures Valid(value[..Lead(value)])
  {
    var l := Lead(value);
    LeadOfFirst(value);
    assert value[..l][l..] == [];
  }

  lemma LeadOfFirst(value: seq<Byte>)
    ensures Lead(value[..Lead(value)]) == Lead(value)
  {}

  lemma PrefixInParts(value: seq<Byte>, l: nat, j: nat)
    requires l + j <= |value|
    ensures value[..l + j] == value[..l] + value[l..][..j]
  {}

  /** In valid text some character boundary lies among any four consecutive positions. */
  lemma {:induction false} BoundaryNear(value: seq<Byte>, cap: nat) returns (k: nat)
    requires Valid(value) && cap <= |value|
    ensures k <= cap < k + 4 && Valid(value[..k])
  {
    hide Lead;
    k := 0;
    if cap >= 4 || (value != [] && Lead(value) <= cap) {
      var l := Lead(value);
      var j := BoundaryNear(value[l..], cap - l);
      k := l + j;
      FirstCharValid(value);
      ValidAppend(value[..l], value[l..][..j]);
      PrefixInParts(value, l, j);
    }
  }

  /** Truncating valid text loses at most three bytes below the cap and cuts
      between two characters. */
  lemma TruncationOfValid(value: seq<Byte>, cap: nat)
    requires Valid(value) && 0 < cap < |value|
    ensures var text := Truncated(value, cap).0;
            && cap - 3 <= |text| <= cap && text <= value
            && Valid(text) && Valid(value[|text|..])
  {
    TruncatedMeans(value, cap);
    var n := |Truncated(value, cap).0|;
    var k := BoundaryNear(value, cap);
    assert n >= k;
    assert Truncated(value, cap).0 == value[..n];
    assert value == value[..n] + value[n..];
    ValidAppend(value[..n], value[n..]);
  }
}
