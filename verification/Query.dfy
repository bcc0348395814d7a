/** The label clause of the effective search query (internal/broker/server.go). */
module Query {
  import opened Options
  import opened Text

  predicate SimpleChar(c: char) {
    'a' <= c <= 'z' || 'A' <= c <= 'Z' || '0' <= c <= '9' || c == '-' || c == '_' || c == '/' || c == '.'
  }

  predicate SimpleValue(value: string) {
    value != "" && forall i :: 0 <= i < |value| ==> SimpleChar(value[i])
  }

  /** Two passes, first over backslashes, then over quotes. */
  function EscapeLabel(name: string): string {
    ReplaceChar(ReplaceChar(name, '\\', "\\\\"), '"', "\\\"")
  }

  function LabelClause(name: string): string {
    var name := Trim(name);
    if name == "" then ""
    else if SimpleValue(name) then "label:" + name
    else "label:\"" + EscapeLabel(name) + "\""
  }

  /** One pass: a backslash before every backslash and every quote. */
  function Escape(s: string): string {
    if s == [] then []
    else (if s[0] == '\\' || s[0] == '"' then ['\\', s[0]] else [s[0]]) + Escape(s[1..])
  }

  lemma {:induction false} ReplaceConcat(a: string, b: string, c: char, sub: string)
    ensures ReplaceChar(a + b, c, sub) == ReplaceChar(a, c, sub) + ReplaceChar(b, c, sub)
  {
    if a == [] {
      assert a + b == b;
    } else {
      assert (a + b)[1..] == a[1..] + b;
      ReplaceConcat(a[1..], b, c, sub);
    }
  }

  /** The two passes do not interfere. */
  lemma {:induction false} TwoPassesAreOne(s: string)
    ensures EscapeLabel(s) == Escape(s)
  {
    if s != [] {
      TwoPassesAreOne(s[1..]);
      var head := if s[0] == '\\' then "\\\\" else [s[0]];
      ReplaceConcat(head, ReplaceChar(s[1..], '\\', "\\\\"), '"', "\\\"");
      assert head[1..] == (if s[0] == '\\' then "\\" else "");
      assert ReplaceChar("\\", '"', "\\\"") == "\\" by { assert "\\"[1..] == ""; }
      assert ReplaceChar(head, '"', "\\\"") == if s[0] == '\\' || s[0] == '"' then ['\\', s[0]] else [s[0]];
    }
  }

  /** Reads a quoted string up to its closing quote, which must be the end. */
  function ReadQuoted(t: string): Option<string> {
    if t == [] then None
    else if t[0] == '"' then (if |t| == 1 then Some([]) else None)
    else if t[0] == '\\' then
      if |t| < 2 then None
      else
        var r := ReadQuoted(t[2..]);
        if r.None? then None else Some([t[1]] + r.value)
    else
      var r := ReadQuoted(t[1..]);
      if r.None? then None else Some([t[0]] + r.value)
  }

  lemma {:induction false} ReadBack(s: string)
    ensures ReadQuoted(Escape(s) + "\"") == Some(s)
  {
    var t := Escape(s) + "\"";
    if s != [] {
      ReadBack(s[1..]);
      assert t[if s[0] == '\\' || s[0] == '"' then 2 else 1..] == Escape(s[1..]) + "\"";
      assert [s[0]] + s[1..] == s;
    }
  }

  /** The label that a clause names. */
  function ReadClause(clause: string): Option<string> {
    if clause == "" then Some("")
    else if !("label:" <= clause) then None
    else if "label:\"" <= clause then ReadQuoted(clause[7..])
    else Some(clause[6..])
  }

  /** A clause determines the trimmed label, so different labels have different clauses. */
  lemma ClauseBack(name: string)
    ensures ReadClause(LabelClause(name)) == Some(Trim(name))
  {
    hide Text.Trim;
    var value := Trim(name);
    var clause := LabelClause(name);
    if value != "" && SimpleValue(value) {
      assert clause[6] == value[0];
      assert clause[6..] == value;
    } else if value != "" {
      TwoPassesAreOne(value);
      ReadBack(value);
      assert clause[..7] == "label:\"" && clause[7..] == Escape(value) + "\"";
      assert clause[..6] == "label:";
    }
  }

  lemma ClauseInjective(a: string, b: string)
    requires LabelClause(a) == LabelClause(b)
    ensures Trim(a) == Trim(b)
  {
    hide Text.Trim, LabelClause, ReadClause;
    ClauseBack(a);
    ClauseBack(b);
  }

  /** Letters, digits and `-._/`, by their code points. */
  predicate NeedsNoQuotes(t: string) {
    forall i :: 0 <= i < |t| ==>
      var n := t[i] as int;
      0x61 <= n <= 0x7A || 0x41 <= n <= 0x5A || 0x30 <= n <= 0x39 || n == 0x2D || n == 0x2E || n == 0x5F || n == 0x2F
  }

  /** A label is printed without quotes exactly when it has only such characters. */
  lemma UnquotedExactly(name: string)
    ensures Trim(name) == "" ==> LabelClause(name) == ""
    ensures Trim(name) != "" ==>
              (LabelClause(name) == "label:" + Trim(name) <==> NeedsNoQuotes(Trim(name)))
    ensures Trim(name) != "" && LabelClause(name) != "label:" + Trim(name) ==>
              "label:\"" <= LabelClause(name) && LabelClause(name)[|LabelClause(name)| - 1] == '"'
  {
    hide Text.Trim;
    var t := Trim(name);
    if t != "" && !SimpleValue(t) {
      TwoPassesAreOne(t);
      var clause := LabelClause(name);
      assert clause[..7] == "label:\"";
      if clause == "label:" + t {
        assert |clause| == 8 + |Escape(t)|;
        EscapeNotShorter(t);
      }
    }
  }

  lemma {:induction false} EscapeNotShorter(s: string)
    ensures |Escape(s)| >= |s|
  {
    if s != [] { EscapeNotShorter(s[1..]); }
  }
}
