/** Address lists, building the raw draft, and reading it back
    (internal/gmailapi/draft.go). */
module DraftMessage {
  import opened Options
  import opened Lists
  import opened Text
  import opened Headers
  import opened Draft
  import Utf8
  import Base64

  // ---- address lists -----------------------------------------------------------------

  /** The lower-cased addresses that are new, in order. */
  function KeepNew(addrs: seq<string>, seen: set<string>): seq<string> {
    if addrs == [] then []
    else
      var email := Lower(Trim(addrs[0]));
      if email == "" || email in seen then KeepNew(addrs[1..], seen)
      else [email] + KeepNew(addrs[1..], seen + {email})
  }

  function Normalized(lib: Library, values: seq<string>, seen: set<string>): Option<seq<string>>
    decreases |values|
  {
    if values == [] then Some([])
    else if Blank(values[0]) then Normalized(lib, values[1..], seen)
    else
      match lib.parse(Trim(values[0]))
      case None => None
      case Some(addrs) =>
        var kept := KeepNew(addrs, seen);
        match Normalized(lib, values[1..], seen + Elements(kept))
        case None => None
        case Some(more) => Some(kept + more)
  }

  function After(result: seq<string>, more: Option<seq<string>>): Option<seq<string>> {
    if more.None? then None else Some(result + more.value)
  }

  /** The inner loop over the addresses of one list. */
  method AppendNew(addrs: seq<string>, seen0: set<string>, result0: seq<string>)
    returns (seen: set<string>, result: seq<string>)
    ensures result == result0 + KeepNew(addrs, seen0)
    ensures seen == seen0 + Elements(KeepNew(addrs, seen0))
  {
    hide Text.Trim;
    seen, result := seen0, result0;
    ghost var kept: seq<string> := [];
    for j := 0 to |addrs|
      invariant kept + KeepNew(addrs[j..], seen) == KeepNew(addrs, seen0)
      invariant seen == seen0 + Elements(kept) && result == result0 + kept
    {
      assert addrs[j..][1..] == addrs[j + 1..];
      var email := Lower(Trim(addrs[j]));
      if email == "" || email in seen {
        continue;
      }
      seen := seen + {email};
      result := result + [email];
      kept := kept + [email];
    }
  }

  method NormalizeAddressList(lib: Library, values: seq<string>) returns (r: Option<seq<string>>)
    ensures r == Normalized(lib, values, {})
  {
    hide Text.Trim, KeepNew;
    var seen: set<string> := {};
    var result: seq<string> := [];
    ghost var all := Normalized(lib, values, {});
    assert values[0..] == values && (all.Some? ==> [] + all.value == all.value);
    for i := 0 to |values|
      invariant all == After(result, Normalized(lib, values[i..], seen))
    {
      assert values[i..][1..] == values[i + 1..];
      var value := Trim(values[i]);
      if value == "" {
        continue;
      }
      var addrs := lib.parse(value);
      if addrs.None? {
        return None;
      }
      ghost var result0 := result;
      ghost var kept := KeepNew(addrs.value, seen);
      seen, result := AppendNew(addrs.value, seen, result);
      assert forall more: seq<string> :: result0 + (kept + more) == result + more;
    }
    assert result + [] == result;
    return Some(result);
  }

  // ---- what the lists hold -----------------------------------------------------------

  /** A lower-cased address without white space around it. */
  predicate Bare(address: string) {
    address != "" && Trim(address) == address && Lower(address) == address
  }

  ghost predicate BareList(addresses: seq<string>) {
    Distinct(addresses) && forall a :: a in addresses ==> Bare(a)
  }

  lemma NormalIsBare(value: string)
    requires Lower(Trim(value)) != ""
    ensures Bare(Lower(Trim(value)))
  {
    hide IsSpace;
    TrimIsTrimmed(value);
    LowerKeepsTrimmed(Trim(value));
    LowerIdempotent(Trim(value));
  }

  lemma {:induction false} KeepNewMeans(addrs: seq<string>, seen: set<string>)
    ensures BareList(KeepNew(addrs, seen))
    ensures forall a :: a in KeepNew(addrs, seen) ==> a !in seen
  {
    hide Text.Trim, Bare;
    if addrs != [] {
      var email := Lower(Trim(addrs[0]));
      if email == "" || email in seen {
        KeepNewMeans(addrs[1..], seen);
      } else {
        NormalIsBare(addrs[0]);
        KeepNewMeans(addrs[1..], seen + {email});
        var rest := KeepNew(addrs[1..], seen + {email});
        assert forall i :: 0 <= i < |rest| ==> rest[i] in rest;
      }
    }
  }

  /** A normalised list holds bare addresses, each once. */
  lemma {:induction false} NormalizedMeans(lib: Library, values: seq<string>, seen: set<string>)
    requires Normalized(lib, values, seen).Some?
    ensures BareList(Normalized(lib, values, seen).value)
    ensures forall a :: a in Normalized(lib, values, seen).value ==> a !in seen
    decreases |values|
  {
    hide Text.Trim, Bare;
    if values != [] {
      if Blank(values[0]) {
        NormalizedMeans(lib, values[1..], seen);
      } else {
        var addrs := lib.parse(Trim(values[0])).value;
        var kept := KeepNew(addrs, seen);
        KeepNewMeans(addrs, seen);
        NormalizedMeans(lib, values[1..], seen + Elements(kept));
        var more := Normalized(lib, values[1..], seen + Elements(kept)).value;
        assert forall i :: 0 <= i < |kept| ==> kept[i] in Elements(kept);
        assert forall i :: 0 <= i < |more| ==> more[i] in more;
      }
    }
  }

  lemma {:induction false} KeepNewConcat(a: seq<string>, b: seq<string>, seen: set<string>)
    ensures KeepNew(a + b, seen) == KeepNew(a, seen) + KeepNew(b, seen + Elements(KeepNew(a, seen)))
  {
    hide Text.Trim;
    if a == [] {
      assert a + b == b && seen + Elements([]) == seen;
    } else {
      assert (a + b)[1..] == a[1..] + b;
      var email := Lower(Trim(a[0]));
      if email == "" || email in seen {
        KeepNewConcat(a[1..], b, seen);
      } else {
        KeepNewConcat(a[1..], b, seen + {email});
        var kept := KeepNew(a[1..], seen + {email});
        assert seen + {email} + Elements(kept) == seen + Elements([email] + kept);
      }
    }
  }

  /** All addresses of the non-blank values in order, or None if one does not parse. */
  function Parsed(lib: Library, values: seq<string>): Option<seq<string>> {
    if values == [] then Some([])
    else
      var more := Parsed(lib, values[1..]);
      if Blank(values[0]) then more
      else
        var addrs := lib.parse(Trim(values[0]));
        if addrs.None? || more.None? then None else Some(addrs.value + more.value)
  }

  lemma {:induction false} NormalizedIsParsed(lib: Library, values: seq<string>, seen: set<string>)
    ensures Normalized(lib, values, seen) ==
              if Parsed(lib, values).None? then None else Some(KeepNew(Parsed(lib, values).value, seen))
    decreases |values|
  {
    hide Text.Trim, KeepNew;
    if values == [] {
      NothingNew(seen);
    } else if Blank(values[0]) {
      NormalizedIsParsed(lib, values[1..], seen);
    } else if lib.parse(Trim(values[0])).Some? {
      var addrs := lib.parse(Trim(values[0])).value;
      NormalizedIsParsed(lib, values[1..], seen + Elements(KeepNew(addrs, seen)));
      if Parsed(lib, values[1..]).Some? { KeepNewConcat(addrs, Parsed(lib, values[1..]).value, seen); }
    }
  }

  lemma NothingNew(seen: set<string>)
    ensures KeepNew([], seen) == []
  {}

  /** What is kept of one address more. */
  lemma KeepNewOneMore(addrs: seq<string>, address: string)
    ensures var kept, email := KeepNew(addrs, {}), Lower(Trim(address));
            KeepNew(addrs + [address], {}) == if email == "" || email in kept then kept else kept + [email]
  {
    hide Text.Trim;
    KeepNewConcat(addrs, [address], {});
    assert [address][1..] == [];
  }

  /** The mail library reads each of the addresses back as itself. */
  ghost predicate Plain(lib: Library, addresses: seq<string>) {
    forall a :: a in addresses ==> lib.parse(a) == Some([a])
  }

  /** Normalising a normalised list of plain addresses changes nothing. */
  lemma {:induction false} NormalizedAgain(lib: Library, addresses: seq<string>, seen: set<string>)
    requires BareList(addresses) && Plain(lib, addresses)
    requires forall a :: a in addresses ==> a !in seen
    ensures Normalized(lib, addresses, seen) == Some(addresses)
    decreases |addresses|
  {
    hide Text.Trim;
    if addresses != [] {
      var a, rest := addresses[0], addresses[1..];
      assert a in addresses && forall x :: x in rest ==> x in addresses;
      assert Bare(a) && [a][1..] == [];
      assert KeepNew([a], seen) == [a];
      assert forall i :: 0 <= i < |rest| ==> rest[i] == addresses[i + 1];
      NormalizedAgain(lib, rest, seen + Elements([a]));
      assert [a] + rest == addresses;
    }
  }

  lemma {:induction false} JoinTrimmedEnds(addresses: seq<string>)
    requires forall a :: a in addresses ==> Bare(a)
    ensures Trimmed(Join(addresses, ", ")) && (addresses != [] ==> Join(addresses, ", ") != "")
  {
    hide IsSpace, Text.Trim;
    if addresses != [] {
      assert addresses[0] in addresses && forall a :: a in addresses[1..] ==> a in addresses;
      assert Trimmed(addresses[0]) by { TrimIsTrimmed(addresses[0]); }
      if |addresses| > 1 { JoinTrimmedEnds(addresses[1..]); }
    }
  }

  /** A list of bare addresses is printed untrimmed. */
  lemma ListPrinted(addresses: seq<string>)
    requires BareList(addresses)
    ensures Trim(Join(addresses, ", ")) == Join(addresses, ", ")
  {
    hide IsSpace;
    JoinTrimmedEnds(addresses);
  }

  // ---- printing ----------------------------------------------------------------------

  function HeaderLine(h: Header): string {
    if Blank(h.1) then "" else h.0 + ": " + Trim(h.1) + "\r\n"
  }

  function HeaderLines(hs: seq<Header>): string {
    if hs == [] then "" else HeaderLine(hs[0]) + HeaderLines(hs[1..])
  }

  /** The headers in the order they are written, blank ones included. */
  function AllHeaders(lib: Library, input: Input, from: string, to: seq<string>, cc: seq<string>, bcc: seq<string>): seq<Header> {
    [("From", from), ("To", Join(to, ", ")), ("Cc", Join(cc, ", ")), ("Bcc", Join(bcc, ", ")),
     ("Subject", EncodeHeaderValue(lib, input.subject)), ("MIME-Version", "1.0"),
     ("Content-Type", "text/plain; charset=\"UTF-8\""), ("Content-Transfer-Encoding", "8bit"),
     ("In-Reply-To", Sanitize(input.inReplyTo)), ("References", Sanitize(Join(input.references, " ")))]
  }

  /** The headers of a draft, or None when an address list does not parse or the
      sender is not one address. */
  function DraftHeaders(lib: Library, input: Input): Option<seq<Header>> {
    var from, to := Normalized(lib, [input.from], {}), Normalized(lib, input.to, {});
    var cc, bcc := Normalized(lib, input.cc, {}), Normalized(lib, input.bcc, {});
    if from.None? || |from.value| != 1 || to.None? || cc.None? || bcc.None? then None
    else Some(AllHeaders(lib, input, from.value[0], to.value, cc.value, bcc.value))
  }

  function DraftText(lib: Library, input: Input): Option<string> {
    match DraftHeaders(lib, input)
    case None => None
    case Some(hs) => Some(HeaderLines(hs) + "\r\n" + NormalizeBody(input.bodyText))
  }

  /** The payload for Gmail. */
  function RawDraft(lib: Library, input: Input): Option<string> {
    match DraftText(lib, input)
    case None => None
    case Some(text) => Some(Base64.Encode(Utf8.Encode(text), false))
  }

  class Buffer {
    var text: string

    constructor ()
      ensures text == ""
    {
      text := "";
    }

    method WriteString(s: string)
      modifies this
      ensures text == old(text) + s
    {
      text := text + s;
    }

    method WriteHeader(name: string, value: string)
      modifies this
      ensures text == old(text) + HeaderLine((name, value))
    {
      var v := Trim(value);
      if v == "" {
        return;
      }
      WriteString(name);
      WriteString(": ");
      WriteString(v);
      WriteString("\r\n");
    }

    method WriteAddressHeader(name: string, values: seq<string>)
      modifies this
      ensures text == old(text) + HeaderLine((name, Join(values, ", ")))
    {
      if |values| == 0 {
        return;
      }
      WriteHeader(name, Join(values, ", "));
    }
  }

  method BuildDraftRaw(lib: Library, input: Input) returns (r: Option<string>)
    ensures r == RawDraft(lib, input)
  {
    var from := NormalizeAddressList(lib, [input.from]);
    if from.None? || |from.value| != 1 {
      return None;
    }
    var to := NormalizeAddressList(lib, input.to);
    if to.None? {
      return None;
    }
    var cc := NormalizeAddressList(lib, input.cc);
    if cc.None? {
      return None;
    }
    var bcc := NormalizeAddressList(lib, input.bcc);
    if bcc.None? {
      return None;
    }
    var raw := new Buffer();
    raw.WriteHeader("From", from.value[0]);
    raw.WriteAddressHeader("To", to.value);
    raw.WriteAddressHeader("Cc", cc.value);
    raw.WriteAddressHeader("Bcc", bcc.value);
    raw.WriteHeader("Subject", EncodeHeaderValue(lib, input.subject));
    raw.WriteHeader("MIME-Version", "1.0");
    raw.WriteHeader("Content-Type", "text/plain; charset=\"UTF-8\"");
    raw.WriteHeader("Content-Transfer-Encoding", "8bit");
    raw.WriteHeader("In-Reply-To", Sanitize(input.inReplyTo));
    raw.WriteHeader("References", Sanitize(Join(input.references, " ")));
    ghost var hs := AllHeaders(lib, input, from.value[0], to.value, cc.value, bcc.value);
    assert raw.text == HeaderLines(hs) by {
      LinesOfTen(hs);
    }
    raw.WriteString("\r\n");
    raw.WriteString(NormalizeBody(input.bodyText));
    return Some(Base64.Encode(Utf8.Encode(raw.text), false));
  }

  lemma LinesOfTen(hs: seq<Header>)
    requires |hs| == 10
    ensures HeaderLines(hs) ==
              "" + HeaderLine(hs[0]) + HeaderLine(hs[1]) + HeaderLine(hs[2]) + HeaderLine(hs[3]) + HeaderLine(hs[4])
              + HeaderLine(hs[5]) + HeaderLine(hs[6]) + HeaderLine(hs[7]) + HeaderLine(hs[8]) + HeaderLine(hs[9])
  {
    hide HeaderLine;
    forall k | 0 <= k < 10 ensures HeaderLines(hs[..k + 1]) == HeaderLines(hs[..k]) + HeaderLine(hs[k]) {
      assert hs[..k + 1] == hs[..k] + [hs[k]];
      LinesSnoc(hs[..k], hs[k]);
    }
    assert hs[..0] == [] && hs[..10] == hs;
  }

  lemma {:induction false} LinesSnoc(hs: seq<Header>, h: Header)
    ensures HeaderLines(hs + [h]) == HeaderLines(hs) + HeaderLine(h)
  {
    hide HeaderLine;
    if hs == [] {
      assert hs + [h] == [h] && [h][1..] == [];
    } else {
      assert (hs + [h])[1..] == hs[1..] + [h];
      LinesSnoc(hs[1..], h);
    }
  }

  // ---- reading -----------------------------------------------------------------------

  /** The position of the first CRLF, or the length if there is none. */
  function FindBreak(t: string): (k: nat)
    ensures k <= |t|
  {
    if |t| < 2 then |t| else if t[0] == '\r' && t[1] == '\n' then 0 else 1 + FindBreak(t[1..])
  }

  function FindColon(t: string): (k: nat)
    ensures k <= |t|
  {
    if t == [] then 0 else if t[0] == ':' then 0 else 1 + FindColon(t[1..])
  }

  /** The header lines up to the first empty line, and the body behind it
      (section 2.1 of RFC 5322). */
  function ReadMessage(t: string): Option<(seq<Header>, string)>
    decreases |t|
  {
    var k := FindBreak(t);
    if k + 2 > |t| then None
    else if k == 0 then Some(([], t[2..]))
    else
      var line := t[..k];
      var c := FindColon(line);
      if c == |line| then None
      else
        match ReadMessage(t[k + 2..])
        case None => None
        case Some((hs, body)) => Some(([(line[..c], Trim(line[c + 1..]))] + hs, body))
  }

  /** A raw draft as its reader decodes and splits it. */
  function ReadRaw(raw: string): Option<(seq<Header>, string)> {
    var bytes := Base64.Decode(raw, false);
    if bytes.None? || !Utf8.Valid(bytes.value) then None else ReadMessage(Utf8.Decode(bytes.value))
  }

  /** The headers that are printed. */
  function Kept(hs: seq<Header>): seq<Header> {
    if hs == [] then []
    else if Blank(hs[0].1) then Kept(hs[1..])
    else [(hs[0].0, Trim(hs[0].1))] + Kept(hs[1..])
  }

  predicate Printable(h: Header) {
    h.0 != "" && NoBreaks(h.0) && ':' !in h.0 && NoBreaks(Trim(h.1))
  }

  lemma {:induction false} FindBreakAfter(line: string, rest: string)
    requires NoBreaks(line)
    ensures FindBreak(line + "\r\n" + rest) == |line|
  {
    if line == [] {
      assert line + "\r\n" + rest == "\r\n" + rest;
    } else {
      assert (line + "\r\n" + rest)[1..] == line[1..] + "\r\n" + rest;
      FindBreakAfter(line[1..], rest);
    }
  }

  lemma {:induction false} FindColonAfter(name: string, rest: string)
    requires ':' !in name
    ensures FindColon(name + ":" + rest) == |name|
  {
    if name == [] {
      assert name + ":" + rest == ":" + rest;
    } else {
      assert (name + ":" + rest)[1..] == name[1..] + ":" + rest;
      FindColonAfter(name[1..], rest);
    }
  }

  lemma TrimAfterSpace(v: string)
    ensures Trim(" " + v) == Trim(v)
  {
    assert (" " + v)[1..] == v;
  }

  lemma ReadLine(h: Header, rest: string)
    requires Printable(h) && !Blank(h.1)
    ensures var t := HeaderLine(h) + rest;
            ReadMessage(t) == match ReadMessage(rest)
                              case None => None
                              case Some((hs, body)) => Some(([(h.0, Trim(h.1))] + hs, body))
  {
    hide Text.Trim, FindBreak, FindColon, IsSpace;
    var v := Trim(h.1);
    var line := h.0 + ":" + (" " + v);
    var t := HeaderLine(h) + rest;
    assert t == line + "\r\n" + rest;
    assert NoBreaks(line);
    FindBreakAfter(line, rest);
    FindColonAfter(h.0, " " + v);
    assert t[..|line|] == line && t[|line| + 2..] == rest;
    assert line[..|h.0|] == h.0 && line[|h.0| + 1..] == " " + v;
    TrimAfterSpace(v);
    TrimTwice(h.1);
  }

  lemma {:induction false} ReadLines(hs: seq<Header>, body: string)
    requires forall h :: h in hs ==> Printable(h)
    ensures ReadMessage(HeaderLines(hs) + "\r\n" + body) == Some((Kept(hs), body))
  {
    hide Text.Trim, HeaderLine, Printable;
    if hs == [] {
      ReadEmptyLine(body);
      assert "" + "\r\n" + body == "\r\n" + body;
    } else {
      assert hs[0] in hs && forall h :: h in hs[1..] ==> h in hs;
      var rest := HeaderLines(hs[1..]) + "\r\n" + body;
      assert HeaderLines(hs) + "\r\n" + body == HeaderLine(hs[0]) + rest;
      ReadLines(hs[1..], body);
      if Blank(hs[0].1) {
        BlankLine(hs[0]);
        assert "" + rest == rest;
      } else {
        ReadLine(hs[0], rest);
      }
    }
  }

  lemma ReadEmptyLine(body: string)
    ensures ReadMessage("\r\n" + body) == Some(([], body))
  {
    var t := "\r\n" + body;
    assert t[0] == '\r' && t[1] == '\n' && t[2..] == body;
  }

  lemma BlankLine(h: Header)
    requires Blank(h.1)
    ensures HeaderLine(h) == ""
  {}

  // ---- the draft round trip ------------------------------------------------------------

  /** What is assumed of `net/mail` and `mime`: their results are one line. */
  ghost predicate OneLine(lib: Library) {
    && (forall s, a :: lib.parse(s).Some? && a in lib.parse(s).value ==> NoBreaks(a))
    && (forall s :: NoBreaks(lib.encode(s)))
  }

  lemma {:induction false} TrimLeftKeepsLine(s: string)
    requires NoBreaks(s)
    ensures NoBreaks(TrimLeft(s))
  {
    hide IsSpace;
    if s != [] { TrimLeftKeepsLine(s[1..]); }
  }

  lemma TrimKeepsLine(s: string)
    requires NoBreaks(s)
    ensures NoBreaks(Trim(s))
  {
    hide IsSpace;
    TrimLeftKeepsLine(s);
    TrimRightEnd(TrimLeft(s));
  }

  lemma {:induction false} KeepNewLines(addrs: seq<string>, seen: set<string>)
    requires forall a :: a in addrs ==> NoBreaks(a)
    ensures forall a :: a in KeepNew(addrs, seen) ==> NoBreaks(a)
  {
    hide Text.Trim;
    if addrs != [] {
      var email := Lower(Trim(addrs[0]));
      assert addrs[0] in addrs && forall a :: a in addrs[1..] ==> a in addrs;
      TrimKeepsLine(addrs[0]);
      assert NoBreaks(email);
      KeepNewLines(addrs[1..], seen);
      KeepNewLines(addrs[1..], seen + {email});
    }
  }

  lemma {:induction false} NormalizedLines(lib: Library, values: seq<string>, seen: set<string>)
    requires OneLine(lib) && Normalized(lib, values, seen).Some?
    ensures forall a :: a in Normalized(lib, values, seen).value ==> NoBreaks(a)
    decreases |values|
  {
    hide Text.Trim;
    if values != [] {
      if Blank(values[0]) {
        NormalizedLines(lib, values[1..], seen);
      } else {
        var kept := KeepNew(lib.parse(Trim(values[0])).value, seen);
        KeepNewLines(lib.parse(Trim(values[0])).value, seen);
        NormalizedLines(lib, values[1..], seen + Elements(kept));
      }
    }
  }

  lemma LinePrintable(name: string, value: string)
    requires name != "" && NoBreaks(name) && ':' !in name && NoBreaks(value)
    ensures Printable((name, value))
  {
    TrimKeepsLine(value);
  }

  lemma DraftPrintable(lib: Library, input: Input)
    requires OneLine(lib) && DraftHeaders(lib, input).Some?
    ensures forall h :: h in DraftHeaders(lib, input).value ==> Printable(h)
  {
    hide Text.Trim, Normalized, Sanitize, IsSpace, Join, Printable;
    var from, to := Normalized(lib, [input.from], {}).value, Normalized(lib, input.to, {}).value;
    var cc, bcc := Normalized(lib, input.cc, {}).value, Normalized(lib, input.bcc, {}).value;
    NormalizedLines(lib, [input.from], {});
    NormalizedLines(lib, input.to, {});
    NormalizedLines(lib, input.cc, {});
    NormalizedLines(lib, input.bcc, {});
    AddressLinesPrintable(from[0], to, cc, bcc);
    TextLinesPrintable(lib, input);
  }

  lemma AddressLinesPrintable(from: string, to: seq<string>, cc: seq<string>, bcc: seq<string>)
    requires NoBreaks(from) && forall a :: a in to + cc + bcc ==> NoBreaks(a)
    ensures Printable(("From", from)) && Printable(("To", Join(to, ", "))) && Printable(("Cc", Join(cc, ", ")))
    ensures Printable(("Bcc", Join(bcc, ", ")))
  {
    hide Printable, Join;
    assert forall a :: a in to || a in cc || a in bcc ==> a in to + cc + bcc;
    JoinNoBreaks(to, ", ");
    JoinNoBreaks(cc, ", ");
    JoinNoBreaks(bcc, ", ");
    LinePrintable("From", from);
    LinePrintable("To", Join(to, ", "));
    LinePrintable("Cc", Join(cc, ", "));
    LinePrintable("Bcc", Join(bcc, ", "));
  }

  lemma EncodedIsLine(lib: Library, value: string)
    requires OneLine(lib)
    ensures NoBreaks(EncodeHeaderValue(lib, value))
  {
    hide Sanitize;
    SanitizeIsLine(value);
  }

  lemma FixedLinesPrintable()
    ensures Printable(("MIME-Version", "1.0")) && Printable(("Content-Transfer-Encoding", "8bit"))
    ensures Printable(("Content-Type", "text/plain; charset=\"UTF-8\""))
  {
    hide Printable;
    LinePrintable("MIME-Version", "1.0");
    LinePrintable("Content-Type", "text/plain; charset=\"UTF-8\"");
    LinePrintable("Content-Transfer-Encoding", "8bit");
  }

  lemma TextLinesPrintable(lib: Library, input: Input)
    requires OneLine(lib)
    ensures Printable(("Subject", EncodeHeaderValue(lib, input.subject))) && Printable(("MIME-Version", "1.0"))
    ensures Printable(("Content-Type", "text/plain; charset=\"UTF-8\"")) && Printable(("Content-Transfer-Encoding", "8bit"))
    ensures Printable(("In-Reply-To", Sanitize(input.inReplyTo)))
    ensures Printable(("References", Sanitize(Join(input.references, " "))))
  {
    hide Printable, Join, Sanitize, EncodeHeaderValue, OneLine;
    FixedLinesPrintable();
    EncodedIsLine(lib, input.subject);
    SanitizeIsLine(input.inReplyTo);
    SanitizeIsLine(Join(input.references, " "));
    LinePrintable("Subject", EncodeHeaderValue(lib, input.subject));
    LinePrintable("In-Reply-To", Sanitize(input.inReplyTo));
    LinePrintable("References", Sanitize(Join(input.references, " ")));
  }

  /** Draft printer and parser. Decoding a raw draft and splitting it at the first
      empty line gives back the non-empty headers in order and the body with its
      line ends normalised. */
  lemma DraftRoundTrip(lib: Library, input: Input)
    requires OneLine(lib)
    ensures RawDraft(lib, input).Some? <==> DraftHeaders(lib, input).Some?
    ensures RawDraft(lib, input).Some? <==>
              && Normalized(lib, [input.from], {}).Some? && |Normalized(lib, [input.from], {}).value| == 1
              && Normalized(lib, input.to, {}).Some? && Normalized(lib, input.cc, {}).Some? && Normalized(lib, input.bcc, {}).Some?
    ensures RawDraft(lib, input).Some? ==>
              ReadRaw(RawDraft(lib, input).value)
              == Some((Kept(DraftHeaders(lib, input).value), NormalizeBody(input.bodyText)))
  {
    hide Text.Trim, Utf8.Encode, Utf8.Decode, Base64.Encode, Base64.DecodeGroups, ReadMessage, Normalized, AllHeaders, HeaderLines;
    if DraftHeaders(lib, input).Some? {
      var text := DraftText(lib, input).value;
      Base64.EncodedText(Utf8.Encode(text), false);
      Base64.DecodeOfEncode(Utf8.Encode(text), false);
      Utf8.DecodeOfEncode(text);
      DraftPrintable(lib, input);
      ReadLines(DraftHeaders(lib, input).value, NormalizeBody(input.bodyText));
    }
  }
}
