/** The string operations of Go's `strings` and `strconv` packages that the
    broker relies on, on strings of Unicode scalar values. */
module Text {

  /** `unicode.IsSpace`: the code points with the White_Space property. */
  predicate IsSpace(c: char) {
    var n := c as int;
    || 0x09 <= n <= 0x0D || n == 0x20 || n == 0x85 || n == 0xA0
    || n == 0x1680 || 0x2000 <= n <= 0x200A
    || n == 0x2028 || n == 0x2029 || n == 0x202F || n == 0x205F || n == 0x3000
  }

  predicate Trimmed(s: string) {
    s == [] || (!IsSpace(s[0]) && !IsSpace(s[|s| - 1]))
  }

  /** No white space anywhere. */
  predicate Solid(s: string) {
    forall i :: 0 <= i < |s| ==> !IsSpace(s[i])
  }

  function TrimLeft(s: string): string {
    if s != [] && IsSpace(s[0]) then TrimLeft(s[1..]) else s
  }

  function TrimRight(s: string): string {
    if s != [] && IsSpace(s[|s| - 1]) then TrimRight(s[..|s| - 1]) else s
  }

  /** `strings.TrimSpace`. */
  function Trim(s: string): string {
    TrimRight(TrimLeft(s))
  }

  lemma {:induction false} TrimLeftStart(s: string)
    ensures TrimLeft(s) == [] || !IsSpace(TrimLeft(s)[0])
  {
    if s != [] && IsSpace(s[0]) { TrimLeftStart(s[1..]); }
  }

  lemma {:induction false} TrimRightEnd(s: string)
    ensures TrimRight(s) <= s
    ensures TrimRight(s) == [] || !IsSpace(TrimRight(s)[|TrimRight(s)| - 1])
  {
    if s != [] && IsSpace(s[|s| - 1]) { TrimRightEnd(s[..|s| - 1]); }
  }

  lemma TrimIsTrimmed(s: string)
    ensures Trimmed(Trim(s))
  {
    TrimLeftStart(s);
    TrimRightEnd(TrimLeft(s));
  }

  lemma TrimEmpty()
    ensures Trim("") == ""
  {}

  lemma TrimTwice(s: string)
    ensures Trim(Trim(s)) == Trim(s)
  {
    TrimIsTrimmed(s);
  }

  predicate AllSpace(s: string) {
    forall i :: 0 <= i < |s| ==> IsSpace(s[i])
  }

  lemma {:induction false} TrimLeftTakesSpace(s: string)
    ensures |TrimLeft(s)| <= |s| && s[|s| - |TrimLeft(s)|..] == TrimLeft(s) && AllSpace(s[..|s| - |TrimLeft(s)|])
  {
    hide IsSpace;
    if s != [] && IsSpace(s[0]) {
      TrimLeftTakesSpace(s[1..]);
      var n := |s| - |TrimLeft(s)|;
      assert s[1..][n - 1..] == s[n..] && s[..n] == [s[0]] + s[1..][..n - 1];
    } else {
      assert s[0..] == s;
    }
  }

  lemma {:induction false} TrimRightTakesSpace(s: string)
    ensures TrimRight(s) <= s && AllSpace(s[|TrimRight(s)|..])
  {
    hide IsSpace;
    if s != [] && IsSpace(s[|s| - 1]) {
      var init := s[..|s| - 1];
      TrimRightTakesSpace(init);
      assert s[|TrimRight(s)|..] == init[|TrimRight(s)|..] + [s[|s| - 1]];
    }
  }

  /** Trimming takes white space from both ends and nothing else. */
  lemma TrimTakesSpace(s: string) returns (left: string, right: string)
    ensures s == left + Trim(s) + right && AllSpace(left) && AllSpace(right) && Trimmed(Trim(s))
  {
    TrimIsTrimmed(s);
    TrimLeftTakesSpace(s);
    TrimRightTakesSpace(TrimLeft(s));
    hide IsSpace, TrimLeft, TrimRight, AllSpace, Trimmed;
    var t := TrimLeft(s);
    left, right := s[..|s| - |t|], t[|Trim(s)|..];
    CutOnce(s, |s| - |t|);
    CutOnce(t, |Trim(s)|);
  }

  lemma CutOnce(s: string, n: nat)
    requires n <= |s|
    ensures s == s[..n] + s[n..]
  {}

  predicate Blank(s: string) {
    Trim(s) == ""
  }

  /** ASCII part of `strings.ToLower`. */
  function LowerChar(c: char): char {
    if 'A' <= c <= 'Z' then c + 32 as char else c
  }

  function Lower(s: string): (r: string)
    ensures |r| == |s|
    ensures forall i :: 0 <= i < |s| ==> r[i] == LowerChar(s[i])
  {
    seq(|s|, i requires 0 <= i < |s| => LowerChar(s[i]))
  }

  lemma LowerIdempotent(s: string)
    ensures Lower(Lower(s)) == Lower(s)
  {}

  lemma LowerKeepsTrimmed(s: string)
    requires Trimmed(s)
    ensures Trimmed(Lower(s))
  {}

  /** `strings.EqualFold` on ASCII letters. */
  predicate EqualFold(a: string, b: string) {
    Lower(a) == Lower(b)
  }

  /** `strings.Join`. */
  function Join(parts: seq<string>, sep: string): string {
    if |parts| == 0 then ""
    else if |parts| == 1 then parts[0]
    else parts[0] + sep + Join(parts[1..], sep)
  }

  /** `strings.ReplaceAll` for a one-character pattern. */
  function ReplaceChar(s: string, c: char, sub: string): string {
    if s == [] then [] else (if s[0] == c then sub else [s[0]]) + ReplaceChar(s[1..], c, sub)
  }

  /** `strings.Fields`: the maximal runs of non-space characters. `word` is the
      run being read. */
  function FieldsFrom(s: string, word: string): seq<string> {
    if s == [] then (if word == [] then [] else [word])
    else if IsSpace(s[0]) then (if word == [] then [] else [word]) + FieldsFrom(s[1..], [])
    else FieldsFrom(s[1..], word + [s[0]])
  }

  function Fields(s: string): seq<string> {
    FieldsFrom(s, [])
  }

  predicate IsWord(s: string) {
    s != [] && Solid(s)
  }

  lemma {:induction false} FieldsOfWord(w: string, rest: string, word: string)
    requires Solid(w)
    ensures FieldsFrom(w + rest, word) == FieldsFrom(rest, word + w)
  {
    if w == [] {
      assert w + rest == rest && word + w == word;
    } else {
      assert (w + rest)[1..] == w[1..] + rest;
      assert word + [w[0]] + w[1..] == word + w;
      FieldsOfWord(w[1..], rest, word + [w[0]]);
    }
  }

  /** Splitting a space-joined list of words gives the list back. */
  lemma {:induction false} FieldsOfJoin(words: seq<string>)
    requires forall w :: w in words ==> IsWord(w)
    ensures Fields(Join(words, " ")) == words
  {
    if |words| == 0 {
    } else if |words| == 1 {
      assert words[0] in words;
      FieldsOfWord(words[0], [], []);
      assert words[0] + [] == words[0] && [] + words[0] == words[0];
    } else {
      assert words[0] in words;
      assert forall w :: w in words[1..] ==> w in words;
      var rest := " " + Join(words[1..], " ");
      assert Join(words, " ") == words[0] + rest;
      FieldsOfWord(words[0], rest, []);
      assert [] + words[0] == words[0];
      assert rest[1..] == Join(words[1..], " ");
      FieldsOfJoin(words[1..]);
      assert [words[0]] + words[1..] == words;
    }
  }

  /** Every field is a word. */
  lemma {:induction false} FieldsAreWords(s: string, word: string)
    requires Solid(word)
    ensures forall w :: w in FieldsFrom(s, word) ==> IsWord(w)
  {
    if s != [] {
      if IsSpace(s[0]) {
        FieldsAreWords(s[1..], []);
      } else {
        FieldsAreWords(s[1..], word + [s[0]]);
      }
    }
  }

  /** A join of words is trimmed: it starts and ends inside a word. */
  lemma {:induction false} JoinOfWordsTrimmed(words: seq<string>)
    requires forall w :: w in words ==> IsWord(w)
    ensures Trimmed(Join(words, " "))
    ensures words != [] ==> Join(words, " ") != ""
  {
    if |words| == 1 {
      assert words[0] in words;
    } else if |words| > 1 {
      assert words[0] in words;
      assert forall w :: w in words[1..] ==> w in words;
      JoinOfWordsTrimmed(words[1..]);
    }
  }

  /** `strconv.Itoa` on the naturals. */
  function Digit(d: nat): char
    requires d < 10
  {
    ('0' as int + d) as char
  }

  predicate IsDigit(c: char) {
    '0' <= c <= '9'
  }

  function DigitValue(c: char): (d: nat)
    requires IsDigit(c)
    ensures d < 10
  {
    c as int - '0' as int
  }

  function Itoa(n: nat): (s: string)
    ensures s != [] && forall c :: c in s ==> IsDigit(c)
  {
    if n < 10 then [Digit(n)] else Itoa(n / 10) + [Digit(n % 10)]
  }

  function Atoi(s: string): nat
    requires forall c :: c in s ==> IsDigit(c)
  {
    if s == [] then 0 else Atoi(s[..|s| - 1]) * 10 + DigitValue(s[|s| - 1])
  }

  lemma {:induction false} AtoiOfItoa(n: nat)
    ensures Atoi(Itoa(n)) == n
  {
    var s := Itoa(n);
    if n < 10 {
      assert s[..0] == [];
      assert Atoi(s[..0]) == 0;
    } else {
      assert s[..|s| - 1] == Itoa(n / 10);
      AtoiOfItoa(n / 10);
    }
  }

  /** Go's string order on ASCII text. */
  predicate Less(a: string, b: string) {
    if b == [] then false
    else if a == [] then true
    else a[0] < b[0] || (a[0] == b[0] && Less(a[1..], b[1..]))
  }
}
