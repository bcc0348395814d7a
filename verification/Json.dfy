/** The JSON that Go's `encoding/json` prints for a flat record of strings,
    string lists and naturals, and a reader for that form. */
module Json {
  import opened Text

  datatype Value = Str(s: string) | Strs(ss: seq<string>) | Num(n: nat)

  type Field = (string, Value)

  // ---- printing ------------------------------------------------------------------

  function HexDigit(d: nat): char
    requires d < 16
  {
    if d < 10 then Digit(d) else ('a' as int + d - 10) as char
  }

  /** `\u` and four lower-case hexadecimal digits. */
  function UnicodeEscape(n: nat): string
    requires n < 0x10000
  {
    ['\\', 'u', HexDigit(n / 0x1000), HexDigit(n / 0x100 % 16), HexDigit(n / 0x10 % 16), HexDigit(n % 16)]
  }

  /** Characters that Go does not print as they are, with HTML escaping on. */
  predicate Special(c: char) {
    var n := c as int;
    n < 0x20 || c == '"' || c == '\\' || c == '<' || c == '>' || c == '&' || n == 0x2028 || n == 0x2029
  }

  function EscapeChar(c: char): string {
    if !Special(c) then [c]
    else if c == '"' || c == '\\' then ['\\', c]
    else if c as int == 8 then ['\\', 'b']
    else if c as int == 12 then ['\\', 'f']
    else if c == '\n' then ['\\', 'n']
    else if c == '\r' then ['\\', 'r']
    else if c == '\t' then ['\\', 't']
    else UnicodeEscape(c as int)
  }

  function EscapeAll(s: string): string {
    if s == [] then [] else EscapeChar(s[0]) + EscapeAll(s[1..])
  }

  function Quote(s: string): string {
    ['"'] + EscapeAll(s) + ['"']
  }

  /** The elements of a list, without the brackets. */
  function PrintElements(ss: seq<string>): string {
    if |ss| == 0 then ""
    else if |ss| == 1 then Quote(ss[0])
    else Quote(ss[0]) + [','] + PrintElements(ss[1..])
  }

  function PrintValue(v: Value): string {
    match v
    case Str(s) => Quote(s)
    case Strs(ss) => ['['] + PrintElements(ss) + [']']
    case Num(n) => Itoa(n)
  }

  function PrintField(f: Field): string {
    Quote(f.0) + [':'] + PrintValue(f.1)
  }

  function PrintFields(fs: seq<Field>): string {
    if |fs| == 0 then ""
    else if |fs| == 1 then PrintField(fs[0])
    else PrintField(fs[0]) + [','] + PrintFields(fs[1..])
  }

  function PrintObject(fs: seq<Field>): string {
    ['{'] + PrintFields(fs) + ['}']
  }

  // ---- reading -------------------------------------------------------------------

  datatype Read<T> = Bad | Good(value: T, rest: string)

  function HexValue(c: char): int {
    if '0' <= c <= '9' then c as int - '0' as int
    else if 'a' <= c <= 'f' then c as int - 'a' as int + 10
    else if 'A' <= c <= 'F' then c as int - 'A' as int + 10
    else -1
  }

  /** What follows the backslash of an escape. */
  function ReadEscape(t: string): (r: Read<char>)
    ensures r.Good? ==> |r.rest| < |t|
  {
    if t == [] then Bad
    else if t[0] == '"' || t[0] == '\\' || t[0] == '/' then Good(t[0], t[1..])
    else if t[0] == 'b' then Good(8 as char, t[1..])
    else if t[0] == 'f' then Good(12 as char, t[1..])
    else if t[0] == 'n' then Good('\n', t[1..])
    else if t[0] == 'r' then Good('\r', t[1..])
    else if t[0] == 't' then Good('\t', t[1..])
    else if t[0] == 'u' && |t| >= 5
         && HexValue(t[1]) >= 0 && HexValue(t[2]) >= 0 && HexValue(t[3]) >= 0 && HexValue(t[4]) >= 0 then
      var n := HexValue(t[1]) * 0x1000 + HexValue(t[2]) * 0x100 + HexValue(t[3]) * 0x10 + HexValue(t[4]);
      if 0xD800 <= n < 0xE000 then Bad else Good(n as char, t[5..])
    else Bad
  }

  /** The characters of a string and its closing quote. */
  function ReadChars(t: string): (r: Read<string>)
    ensures r.Good? ==> |r.rest| < |t|
    decreases |t|
  {
    if t == [] || t[0] as int < 0x20 then Bad
    else if t[0] == '"' then Good([], t[1..])
    else if t[0] == '\\' then
      var e := ReadEscape(t[1..]);
      if e.Bad? then Bad
      else
        var r := ReadChars(e.rest);
        if r.Bad? then Bad else Good([e.value] + r.value, r.rest)
    else
      var r := ReadChars(t[1..]);
      if r.Bad? then Bad else Good([t[0]] + r.value, r.rest)
  }

  function ReadString(t: string): (r: Read<string>)
    ensures r.Good? ==> |r.rest| < |t|
  {
    if t == [] || t[0] != '"' then Bad else ReadChars(t[1..])
  }

  /** List elements up to the closing bracket, at least one. */
  function ReadElements(t: string): (r: Read<seq<string>>)
    ensures r.Good? ==> |r.rest| < |t|
    decreases |t|
  {
    var s := ReadString(t);
    if s.Bad? || s.rest == [] then Bad
    else if s.rest[0] == ']' then Good([s.value], s.rest[1..])
    else if s.rest[0] == ',' then
      var r := ReadElements(s.rest[1..]);
      if r.Bad? then Bad else Good([s.value] + r.value, r.rest)
    else Bad
  }

  function DigitsPrefix(t: string): (k: nat)
    ensures k <= |t| && forall i :: 0 <= i < k ==> IsDigit(t[i])
    ensures k < |t| ==> !IsDigit(t[k])
  {
    if t != [] && IsDigit(t[0]) then 1 + DigitsPrefix(t[1..]) else 0
  }

  function ReadValue(t: string): (r: Read<Value>)
    ensures r.Good? ==> |r.rest| < |t|
  {
    if t == [] then Bad
    else if t[0] == '"' then
      var s := ReadString(t);
      if s.Bad? then Bad else Good(Str(s.value), s.rest)
    else if t[0] == '[' then
      if |t| > 1 && t[1] == ']' then Good(Strs([]), t[2..])
      else
        var r := ReadElements(t[1..]);
        if r.Bad? then Bad else Good(Strs(r.value), r.rest)
    else
      var k := DigitsPrefix(t);
      if k == 0 || (k > 1 && t[0] == '0') then Bad else Good(Num(Atoi(t[..k])), t[k..])
  }

  function ReadField(t: string): (r: Read<Field>)
    ensures r.Good? ==> |r.rest| < |t|
  {
    var key := ReadString(t);
    if key.Bad? || key.rest == [] || key.rest[0] != ':' then Bad
    else
      var v := ReadValue(key.rest[1..]);
      if v.Bad? then Bad else Good((key.value, v.value), v.rest)
  }

  function ReadFields(t: string): (r: Read<seq<Field>>)
    ensures r.Good? ==> |r.rest| < |t|
    decreases |t|
  {
    var f := ReadField(t);
    if f.Bad? || f.rest == [] then Bad
    else if f.rest[0] == '}' then Good([f.value], f.rest[1..])
    else if f.rest[0] == ',' then
      var r := ReadFields(f.rest[1..]);
      if r.Bad? then Bad else Good([f.value] + r.value, r.rest)
    else Bad
  }

  function ReadObject(t: string): Read<seq<Field>> {
    if t == [] || t[0] != '{' then Bad
    else if t[1..] == "}" then Good([], [])
    else
      var r := ReadFields(t[1..]);
      if r.Bad? || r.rest != [] then Bad else r
  }

  // ---- reading what was printed ----------------------------------------------------

  lemma HexBack(d: nat)
    requires d < 16
    ensures HexValue(HexDigit(d)) == d
  {}

  lemma HexPlaces(n: nat)
    ensures n == n / 0x1000 * 0x1000 + n / 0x100 % 16 * 0x100 + n / 0x10 % 16 * 0x10 + n % 16
  {
    var p := n / 16;
    var q := p / 16;
    assert n / 0x100 == q && n / 0x1000 == q / 16;
    assert n == 16 * p + n % 16 && p == 16 * q + p % 16 && q == 16 * (q / 16) + q % 16;
  }

  lemma HexRead(a: nat, b: nat, c: nat, d: nat, rest: string)
    requires a < 0xD && b < 16 && c < 16 && d < 16
    ensures ReadEscape(['u', HexDigit(a), HexDigit(b), HexDigit(c), HexDigit(d)] + rest)
         == Good((a * 0x1000 + b * 0x100 + c * 0x10 + d) as char, rest)
  {
    hide HexDigit, HexValue;
    var t := ['u', HexDigit(a), HexDigit(b), HexDigit(c), HexDigit(d)] + rest;
    HexBack(a);
    HexBack(b);
    HexBack(c);
    HexBack(d);
    assert t[5..] == rest;
  }

  lemma UnicodeEscapeBack(n: nat, rest: string)
    requires n < 0xD000
    ensures ReadEscape((UnicodeEscape(n) + rest)[1..]) == Good(n as char, rest)
  {
    hide HexDigit, ReadEscape;
    var a, b, c, d := n / 0x1000, n / 0x100 % 16, n / 0x10 % 16, n % 16;
    HexPlaces(n);
    HexRead(a, b, c, d, rest);
    assert (UnicodeEscape(n) + rest)[1..] == ['u', HexDigit(a), HexDigit(b), HexDigit(c), HexDigit(d)] + rest;
  }

  lemma EscapeBack(c: char, rest: string)
    requires Special(c)
    ensures var t := EscapeChar(c) + rest;
            |t| > 0 && t[0] == '\\' && ReadEscape(t[1..]) == Good(c, rest)
  {
    hide UnicodeEscape;
    var t := EscapeChar(c) + rest;
    if EscapeChar(c) == UnicodeEscape(c as int) {
      UnicodeEscapeBack(c as int, rest);
      assert UnicodeEscape(c as int)[0] == '\\' by { EscapeStart(c as int); }
    } else {
      assert t[1..][1..] == rest;
    }
  }

  lemma EscapeStart(n: nat)
    requires n < 0x10000
    ensures |UnicodeEscape(n)| > 0 && UnicodeEscape(n)[0] == '\\'
  {}

  lemma {:induction false} CharsBack(s: string, rest: string)
    ensures ReadChars(EscapeAll(s) + ['"'] + rest) == Good(s, rest)
  {
    hide EscapeChar, Special, ReadEscape;
    var t := EscapeAll(s) + ['"'] + rest;
    if s == [] {
      assert t[1..] == rest;
    } else {
      var more := EscapeAll(s[1..]) + ['"'] + rest;
      assert t == EscapeChar(s[0]) + more;
      CharsBack(s[1..], rest);
      if Special(s[0]) {
        EscapeBack(s[0], more);
      } else {
        PlainChar(s[0]);
        assert t[1..] == more;
      }
      assert [s[0]] + s[1..] == s;
    }
  }

  lemma PlainChar(c: char)
    requires !Special(c)
    ensures EscapeChar(c) == [c] && c != '"' && c != '\\' && c as int >= 0x20
  {}

  lemma StringBack(s: string, rest: string)
    ensures ReadString(Quote(s) + rest) == Good(s, rest)
  {
    assert (Quote(s) + rest)[1..] == EscapeAll(s) + ['"'] + rest;
    CharsBack(s, rest);
  }

  lemma {:induction false} ElementsBack(ss: seq<string>, rest: string)
    requires ss != []
    ensures ReadElements(PrintElements(ss) + [']'] + rest) == Good(ss, rest)
  {
    hide ReadString, Quote;
    var t := PrintElements(ss) + [']'] + rest;
    if |ss| == 1 {
      assert t == Quote(ss[0]) + ([']'] + rest);
      StringBack(ss[0], [']'] + rest);
      assert ([']'] + rest)[1..] == rest;
      assert ss == [ss[0]];
    } else {
      var more := PrintElements(ss[1..]) + [']'] + rest;
      assert t == Quote(ss[0]) + ([','] + more);
      StringBack(ss[0], [','] + more);
      assert ([','] + more)[1..] == more;
      ElementsBack(ss[1..], rest);
      assert [ss[0]] + ss[1..] == ss;
    }
  }

  lemma {:induction false} DigitsPrefixOf(d: string, rest: string)
    requires forall c :: c in d ==> IsDigit(c)
    requires rest == [] || !IsDigit(rest[0])
    ensures DigitsPrefix(d + rest) == |d|
  {
    if d == [] {
      assert d + rest == rest;
    } else {
      assert (d + rest)[1..] == d[1..] + rest;
      assert d[0] in d;
      DigitsPrefixOf(d[1..], rest);
    }
  }

  lemma {:induction false} NoLeadingZero(n: nat)
    ensures |Itoa(n)| > 1 ==> Itoa(n)[0] != '0'
    ensures n > 0 ==> Itoa(n)[0] != '0'
  {
    if n >= 10 { NoLeadingZero(n / 10); }
  }

  lemma NumberBack(n: nat, rest: string)
    requires rest == [] || !IsDigit(rest[0])
    ensures ReadValue(Itoa(n) + rest) == Good(Num(n), rest)
  {
    hide ReadString, ReadElements, Itoa, Atoi, DigitsPrefix;
    var t := Itoa(n) + rest;
    DigitsPrefixOf(Itoa(n), rest);
    NoLeadingZero(n);
    AtoiOfItoa(n);
    assert t[0] == Itoa(n)[0] && Itoa(n)[0] in Itoa(n);
    assert t[..|Itoa(n)|] == Itoa(n) && t[|Itoa(n)|..] == rest;
  }

  lemma ListBack(ss: seq<string>, rest: string)
    ensures ReadValue(['['] + PrintElements(ss) + [']'] + rest) == Good(Strs(ss), rest)
  {
    hide ReadString, ReadElements;
    var t := ['['] + PrintElements(ss) + [']'] + rest;
    if ss == [] {
      assert t[1] == ']' && t[2..] == rest;
    } else {
      assert t[1..] == PrintElements(ss) + [']'] + rest;
      ElementsBack(ss, rest);
      assert Quote(ss[0])[0] == '"';
      assert PrintElements(ss)[0] == '"';
      assert t[1] == '"';
    }
  }

  lemma ValueBack(v: Value, rest: string)
    requires rest == [] || !IsDigit(rest[0])
    ensures ReadValue(PrintValue(v) + rest) == Good(v, rest)
  {
    hide ReadString, ReadElements, Itoa;
    match v
    case Str(s) =>
      StringBack(s, rest);
      assert (Quote(s) + rest)[0] == '"';
    case Strs(ss) =>
      ListBack(ss, rest);
    case Num(n) =>
      NumberBack(n, rest);
  }

  lemma FieldBack(f: Field, rest: string)
    requires rest == [] || !IsDigit(rest[0])
    ensures ReadField(PrintField(f) + rest) == Good(f, rest)
  {
    hide ReadString, Quote, ReadValue, PrintValue;
    var more := PrintValue(f.1) + rest;
    assert PrintField(f) + rest == Quote(f.0) + ([':'] + more);
    StringBack(f.0, [':'] + more);
    assert ([':'] + more)[1..] == more;
    ValueBack(f.1, rest);
  }

  lemma {:induction false} FieldsBack(fs: seq<Field>, rest: string)
    requires fs != []
    ensures ReadFields(PrintFields(fs) + ['}'] + rest) == Good(fs, rest)
  {
    hide ReadField, PrintField;
    var t := PrintFields(fs) + ['}'] + rest;
    if |fs| == 1 {
      assert t == PrintField(fs[0]) + (['}'] + rest);
      FieldBack(fs[0], ['}'] + rest);
      assert (['}'] + rest)[1..] == rest;
      assert fs == [fs[0]];
    } else {
      var more := PrintFields(fs[1..]) + ['}'] + rest;
      assert t == PrintField(fs[0]) + ([','] + more);
      FieldBack(fs[0], [','] + more);
      assert ([','] + more)[1..] == more;
      FieldsBack(fs[1..], rest);
      assert [fs[0]] + fs[1..] == fs;
    }
  }

  /** Reading a printed record gives back its fields, in order. */
  lemma ObjectBack(fs: seq<Field>)
    requires fs != []
    ensures ReadObject(PrintObject(fs)) == Good(fs, [])
  {
    hide ReadFields, PrintFields, Quote;
    var t := PrintObject(fs);
    assert t[1..] == PrintFields(fs) + ['}'] + [];
    FieldsBack(fs, []);
    FieldsStart(fs);
    assert t[1] == '"';
  }

  lemma FieldsStart(fs: seq<Field>)
    requires fs != []
    ensures PrintFields(fs) != "" && PrintFields(fs)[0] == '"'
  {
    assert Quote(fs[0].0)[0] == '"';
    assert PrintField(fs[0])[0] == '"';
  }

  /** Base64 text needs no escaping, so a JSON string holds it byte for byte. */
  lemma {:induction false} PlainText(s: string)
    requires forall i :: 0 <= i < |s| ==> !Special(s[i])
    ensures EscapeAll(s) == s
  {
    if s != [] {
      PlainText(s[1..]);
      assert [s[0]] + s[1..] == s;
    }
  }

  /** The escapes that Go prints, by code point, with HTML escaping on. */
  lemma EscapesAre(c: char)
    ensures var n := c as int;
            EscapeChar(c) ==
              if n == 0x22 then ['\\', '"'] else if n == 0x5C then ['\\', '\\']
              else if n == 0x08 then ['\\', 'b'] else if n == 0x09 then ['\\', 't'] else if n == 0x0A then ['\\', 'n']
              else if n == 0x0C then ['\\', 'f'] else if n == 0x0D then ['\\', 'r']
              else if n == 0x26 then ['\\', 'u', '0', '0', '2', '6']
              else if n == 0x3C then ['\\', 'u', '0', '0', '3', 'c'] else if n == 0x3E then ['\\', 'u', '0', '0', '3', 'e']
              else if n == 0x2028 then ['\\', 'u', '2', '0', '2', '8'] else if n == 0x2029 then ['\\', 'u', '2', '0', '2', '9']
              else if n < 0x10 then ['\\', 'u', '0', '0', '0', LowerHex(n)]
              else if n < 0x20 then ['\\', 'u', '0', '0', '1', LowerHex(n - 0x10)]
              else [c]
  {}

  function LowerHex(d: nat): char
    requires d < 16
  {
    if d < 10 then (0x30 + d) as char else (0x57 + d) as char
  }
}
