/** Draft printing and reply threading in the form of RFC 5322
    (internal/gmailapi/draft.go). `net/mail` address parsing and MIME word
    encoding are parameters. */
module Draft {
  import opened Options
  import opened Text

  /** The library calls: `parse` gives the addresses of an address list, `encode`
      the encoded form of a header value that is not ASCII, `extract` the bare
      addresses in an address header, and `date` the printed stamp of a Date header,
      or "" when it does not parse. */
  datatype Library = Library(parse: string -> Option<seq<string>>, encode: string -> string,
                             extract: string -> seq<string>, date: string -> string)

  datatype Input = Input(from: string, to: seq<string>, cc: seq<string>, bcc: seq<string>, subject: string,
                         bodyText: string, inReplyTo: string, references: seq<string>)

  // ---- header values -----------------------------------------------------------------

  predicate NoBreaks(s: string) {
    forall i :: 0 <= i < |s| ==> s[i] != '\r' && s[i] != '\n'
  }

  function Sanitize(value: string): string {
    Join(Fields(ReplaceChar(ReplaceChar(value, '\r', " "), '\n', " ")), " ")
  }

  function SplitReferences(value: string): seq<string> {
    Fields(Sanitize(value))
  }

  predicate IsASCII(s: string) {
    forall i :: 0 <= i < |s| ==> s[i] as int <= 127
  }

  function EncodeHeaderValue(lib: Library, value: string): string {
    var value := Sanitize(value);
    if value == "" || IsASCII(value) then value else lib.encode(value)
  }

  predicate AllWords(words: seq<string>) {
    forall w :: w in words ==> IsWord(w)
  }

  lemma {:induction false} JoinNoBreaks(words: seq<string>, sep: string)
    requires forall w :: w in words ==> NoBreaks(w)
    requires NoBreaks(sep)
    ensures NoBreaks(Join(words, sep))
  {
    if |words| > 0 {
      assert words[0] in words;
      if |words| > 1 {
        assert forall w :: w in words[1..] ==> w in words;
        JoinNoBreaks(words[1..], sep);
      }
    }
  }

  lemma WordNoBreaks(w: string)
    requires IsWord(w)
    ensures NoBreaks(w)
  {
    assert IsSpace('\r') && IsSpace('\n');
  }

  /** A sanitised value is one line, trimmed. */
  lemma SanitizeIsLine(value: string)
    ensures NoBreaks(Sanitize(value)) && Trim(Sanitize(value)) == Sanitize(value)
  {
    hide IsSpace;
    var flat := ReplaceChar(ReplaceChar(value, '\r', " "), '\n', " ");
    FieldsAreWords(flat, []);
    forall w | w in Fields(flat) ensures NoBreaks(w) { WordNoBreaks(w); }
    JoinNoBreaks(Fields(flat), " ");
    JoinOfWordsTrimmed(Fields(flat));
  }

  lemma {:induction false} FieldsOfSpaced(s: string, c: char, word: string)
    requires IsSpace(c)
    ensures FieldsFrom(ReplaceChar(s, c, " "), word) == FieldsFrom(s, word)
  {
    assert IsSpace(' ');
    hide IsSpace;
    if s != [] {
      var head: string := if s[0] == c then " " else [s[0]];
      var rest := ReplaceChar(s[1..], c, " ");
      assert ReplaceChar(s, c, " ") == head + rest;
      assert (head + rest)[0] == head[0] && (head + rest)[1..] == rest;
      FieldsOfSpaced(s[1..], c, []);
      FieldsOfSpaced(s[1..], c, word + [s[0]]);
    }
  }

  /** Sanitising keeps the words of a value and nothing else: they are joined by
      single spaces, and doing it again changes nothing. */
  lemma SanitizeKeepsWords(value: string)
    ensures Sanitize(value) == Join(Fields(value), " ")
    ensures Fields(Sanitize(value)) == Fields(value)
    ensures Sanitize(Sanitize(value)) == Sanitize(value)
  {
    assert IsSpace('\r') && IsSpace('\n');
    hide IsSpace;
    var flat := ReplaceChar(value, '\r', " ");
    FieldsOfSpaced(value, '\r', []);
    FieldsOfSpaced(flat, '\n', []);
    FieldsAreWords(value, []);
    FieldsOfJoin(Fields(value));
    SanitizeJoin(Fields(value));
  }

  lemma {:induction false} ReplaceAbsent(s: string, c: char, sub: string)
    requires forall i :: 0 <= i < |s| ==> s[i] != c
    ensures ReplaceChar(s, c, sub) == s
  {
    if s != [] {
      ReplaceAbsent(s[1..], c, sub);
      assert [s[0]] + s[1..] == s;
    }
  }

  /** A space-joined list of words is already sanitised, and splits into the words again. */
  lemma SanitizeJoin(words: seq<string>)
    requires AllWords(words)
    ensures Sanitize(Join(words, " ")) == Join(words, " ")
    ensures SplitReferences(Join(words, " ")) == words
  {
    hide IsSpace;
    var j := Join(words, " ");
    forall w | w in words ensures NoBreaks(w) { WordNoBreaks(w); }
    JoinNoBreaks(words, " ");
    ReplaceAbsent(j, '\r', " ");
    ReplaceAbsent(j, '\n', " ");
    FieldsOfJoin(words);
  }

  lemma SanitizeWord(w: string)
    requires IsWord(w)
    ensures Sanitize(w) == w && SplitReferences(w) == [w]
  {
    assert Join([w], " ") == w;
    SanitizeJoin([w]);
  }

  // ---- bodies ------------------------------------------------------------------------

  /** `strings.ReplaceAll(s, "\r\n", "\n")`. */
  function CRLFToLF(s: string): string {
    if |s| >= 2 && s[0] == '\r' && s[1] == '\n' then ['\n'] + CRLFToLF(s[2..])
    else if s == [] then []
    else [s[0]] + CRLFToLF(s[1..])
  }

  function NormalizeBody(value: string): string {
    ReplaceChar(ReplaceChar(CRLFToLF(value), '\r', "\n"), '\n', "\r\n")
  }

  /** The lines of a text whose line ends may be CRLF, CR or LF; `line` is the line being read. */
  function LinesFrom(s: string, line: string): (ls: seq<string>)
    ensures ls != []
  {
    if |s| >= 2 && s[0] == '\r' && s[1] == '\n' then [line] + LinesFrom(s[2..], [])
    else if s == [] then [line]
    else if s[0] == '\r' || s[0] == '\n' then [line] + LinesFrom(s[1..], [])
    else LinesFrom(s[1..], line + [s[0]])
  }

  function Lines(s: string): seq<string> {
    LinesFrom(s, [])
  }

  lemma ReplaceFirst(c0: char, rest: string, c: char, sub: string)
    ensures ReplaceChar([c0] + rest, c, sub) == (if c0 == c then sub else [c0]) + ReplaceChar(rest, c, sub)
  {
    assert ([c0] + rest)[1..] == rest;
  }

  lemma NormalizeStep(s: string)
    requires s != []
    ensures NormalizeBody(s) ==
              if |s| >= 2 && s[0] == '\r' && s[1] == '\n' then "\r\n" + NormalizeBody(s[2..])
              else if s[0] == '\r' || s[0] == '\n' then "\r\n" + NormalizeBody(s[1..])
              else [s[0]] + NormalizeBody(s[1..])
  {
    hide ReplaceChar;
    var pair := |s| >= 2 && s[0] == '\r' && s[1] == '\n';
    var c, rest := if pair then '\n' else s[0], CRLFToLF(if pair then s[2..] else s[1..]);
    assert CRLFToLF(s) == [c] + rest;
    ReplaceFirst(c, rest, '\r', "\n");
    var c' := if c == '\r' then '\n' else c;
    assert ReplaceChar(CRLFToLF(s), '\r', "\n") == [c'] + ReplaceChar(rest, '\r', "\n");
    ReplaceFirst(c', ReplaceChar(rest, '\r', "\n"), '\n', "\r\n");
  }

  lemma JoinFirst(line: string, rest: seq<string>)
    requires rest != []
    ensures Join([line] + rest, "\r\n") == line + "\r\n" + Join(rest, "\r\n")
  {
    assert ([line] + rest)[1..] == rest;
  }

  lemma {:induction false} NormalizeIsJoin(s: string, line: string)
    ensures Join(LinesFrom(s, line), "\r\n") == line + NormalizeBody(s)
  {
    hide NormalizeBody, Join;
    if s == [] {
      NormalizeEmpty();
      assert Join([line], "\r\n") == line by { JoinOne(line); }
    } else {
      NormalizeStep(s);
      if |s| >= 2 && s[0] == '\r' && s[1] == '\n' {
        NormalizeIsJoin(s[2..], []);
        JoinFirst(line, LinesFrom(s[2..], []));
      } else if s[0] == '\r' || s[0] == '\n' {
        NormalizeIsJoin(s[1..], []);
        JoinFirst(line, LinesFrom(s[1..], []));
      } else {
        NormalizeIsJoin(s[1..], line + [s[0]]);
      }
    }
  }

  lemma JoinOne(line: string)
    ensures Join([line], "\r\n") == line
  {}

  lemma NormalizeEmpty()
    ensures NormalizeBody([]) == []
  {}

  lemma {:induction false} LinesHaveNoBreaks(s: string, line: string)
    requires NoBreaks(line)
    ensures LinesFrom(s, line) != [] && forall l :: l in LinesFrom(s, line) ==> NoBreaks(l)
  {
    if |s| >= 2 && s[0] == '\r' && s[1] == '\n' {
      LinesHaveNoBreaks(s[2..], []);
    } else if s != [] {
      if s[0] == '\r' || s[0] == '\n' {
        LinesHaveNoBreaks(s[1..], []);
      } else {
        LinesHaveNoBreaks(s[1..], line + [s[0]]);
      }
    }
  }

  lemma {:induction false} LinesOfLine(l: string, rest: string, line: string)
    requires NoBreaks(l)
    ensures LinesFrom(l + rest, line) == LinesFrom(rest, line + l)
  {
    if l == [] {
      assert l + rest == rest && line + l == line;
    } else {
      assert (l + rest)[1..] == l[1..] + rest && (l + rest)[0] == l[0];
      assert line + [l[0]] + l[1..] == line + l;
      LinesOfLine(l[1..], rest, line + [l[0]]);
    }
  }

  lemma {:induction false} LinesOfJoin(ls: seq<string>)
    requires ls != [] && forall l :: l in ls ==> NoBreaks(l)
    ensures Lines(Join(ls, "\r\n")) == ls
  {
    assert ls[0] in ls;
    if |ls| == 1 {
      LinesOfLine(ls[0], [], []);
      assert ls[0] + [] == ls[0] && [] + ls[0] == ls[0];
    } else {
      assert forall l :: l in ls[1..] ==> l in ls;
      var rest := "\r\n" + Join(ls[1..], "\r\n");
      assert Join(ls, "\r\n") == ls[0] + rest;
      LinesOfLine(ls[0], rest, []);
      assert [] + ls[0] == ls[0] && rest[2..] == Join(ls[1..], "\r\n");
      LinesOfJoin(ls[1..]);
      assert [ls[0]] + ls[1..] == ls;
    }
  }

  /** CR and LF occur only as the pair CRLF. */
  ghost predicate PairedBreaks(s: string) {
    forall i :: 0 <= i < |s| ==> PairedAt(s, i)
  }

  predicate PairedAt(s: string, i: nat)
    requires i < |s|
  {
    && (s[i] == '\r' ==> i + 1 < |s| && s[i + 1] == '\n')
    && (s[i] == '\n' ==> i > 0 && s[i - 1] == '\r')
  }

  lemma {:induction false} JoinPairs(ls: seq<string>)
    requires forall l :: l in ls ==> NoBreaks(l)
    ensures PairedBreaks(Join(ls, "\r\n"))
  {
    if |ls| == 1 {
      assert ls[0] in ls;
    } else if |ls| > 1 {
      assert ls[0] in ls;
      assert forall l :: l in ls[1..] ==> l in ls;
      JoinPairs(ls[1..]);
      PairsAfterLine(ls[0], Join(ls[1..], "\r\n"));
    }
  }

  lemma PairsAfterLine(l: string, rest: string)
    requires NoBreaks(l) && PairedBreaks(rest)
    ensures PairedBreaks(l + "\r\n" + rest)
  {
    var j := l + "\r\n" + rest;
    var n := |l|;
    assert j[n] == '\r' && j[n + 1] == '\n';
    forall i | 0 <= i < |j| ensures PairedAt(j, i) {
      if i < n {
        assert j[i] == l[i];
      } else if i >= n + 2 {
        assert PairedAt(rest, i - n - 2);
      }
    }
  }

  /** Body normalisation: the same lines, ended by CRLF alone; doing it again
      changes nothing. */
  lemma NormalizeBodyMeans(s: string)
    ensures NormalizeBody(s) == Join(Lines(s), "\r\n")
    ensures Lines(NormalizeBody(s)) == Lines(s)
    ensures PairedBreaks(NormalizeBody(s))
    ensures NormalizeBody(NormalizeBody(s)) == NormalizeBody(s)
  {
    NormalizeIsJoin(s, []);
    assert [] + NormalizeBody(s) == NormalizeBody(s);
    LinesHaveNoBreaks(s, []);
    LinesOfJoin(Lines(s));
    JoinPairs(Lines(s));
    var n := NormalizeBody(s);
    NormalizeIsJoin(n, []);
    assert [] + NormalizeBody(n) == NormalizeBody(n);
  }

  /** A subject is printed as its words joined by single spaces, if it is ASCII, and
      otherwise as the encoded form of that. */
  lemma SubjectPrinted(lib: Library, value: string)
    ensures var line := Join(Fields(value), " ");
            EncodeHeaderValue(lib, value) ==
              if forall i :: 0 <= i < |line| ==> line[i] as int < 128 then line else lib.encode(line)
  {
    SanitizeKeepsWords(value);
  }
}
