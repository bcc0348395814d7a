/** How long page tokens get. A token carries every id that the search has returned
    (internal/broker/server.go:417-426), while the broker reads request frames of
    at most 1 MiB (server.go:26, 155), so a long search ends in a token that no
    request can carry. */
module TokenSize {
  import opened Text
  import opened Utf8
  import Base64
  import opened Json
  import Search
  import opened SearchSafety
  import opened SearchReference
  import opened SearchComplete
  import opened Cursor
  import opened Paging
  import Framing

  const REQUEST_MAX_BYTES: nat := 1024 * 1024

  function Bytes(text: string): nat {
    |Encode(text)|
  }

  /** Bytes of the quoted elements of a list, each with a comma. */
  function ListBytes(ids: seq<string>): nat {
    if ids == [] then 0 else Bytes(Quote(ids[0])) + 1 + ListBytes(ids[1..])
  }

  /** Bytes of the JSON record of a cursor. */
  function CursorBytes(c: Cursor): nat {
    24 + Bytes(Quote(c.kind)) + Bytes(Quote(c.query))
    + (if c.pending == [] then 0 else 16 + ListBytes(c.pending))
    + (if c.returned == [] then 0 else 17 + ListBytes(c.returned))
    + (if c.token == "" then 0 else 20 + Bytes(Quote(c.token)))
  }

  // ---- the length of a token -------------------------------------------------------------

  function FieldsBytes(fs: seq<Field>): nat {
    if fs == [] then 0 else Bytes(PrintField(fs[0])) + 1 + FieldsBytes(fs[1..])
  }

  lemma {:induction false} FieldsBytesConcat(a: seq<Field>, b: seq<Field>)
    ensures FieldsBytes(a + b) == FieldsBytes(a) + FieldsBytes(b)
  {
    hide Bytes, PrintField;
    if a == [] {
      assert a + b == b;
    } else {
      assert (a + b)[1..] == a[1..] + b;
      FieldsBytesConcat(a[1..], b);
    }
  }

  lemma OneFieldBytes(f: Field)
    ensures FieldsBytes([f]) == Bytes(PrintField(f)) + 1
  {
    hide Bytes, PrintField;
    assert [f][1..] == [];
  }

  lemma CommaBytes(a: string, b: string)
    ensures Bytes(a + [','] + b) == Bytes(a) + 1 + Bytes(b)
  {
    EncodeAscii([',']);
    EncodeConcat(a, [',']);
    EncodeConcat(a + [','], b);
  }

  lemma {:induction false} PrintedFieldsBytes(fs: seq<Field>)
    requires fs != []
    ensures Bytes(PrintFields(fs)) == FieldsBytes(fs) - 1
  {
    hide Bytes, PrintField;
    if |fs| == 1 {
      OneFieldBytes(fs[0]);
      assert fs == [fs[0]];
    } else {
      PrintedFieldsBytes(fs[1..]);
      CommaBytes(PrintField(fs[0]), PrintFields(fs[1..]));
    }
  }

  lemma {:induction false} PrintedListBytes(ids: seq<string>)
    requires ids != []
    ensures Bytes(PrintElements(ids)) == ListBytes(ids) - 1
  {
    hide Bytes, Quote;
    if |ids| == 1 {
      assert ids[1..] == [];
    } else {
      PrintedListBytes(ids[1..]);
      CommaBytes(Quote(ids[0]), PrintElements(ids[1..]));
    }
  }

  /** A name that needs no escape. */
  lemma NameBytes(name: string)
    requires forall i :: 0 <= i < |name| ==> !Special(name[i]) && name[i] as int < 0x80
    ensures Bytes(Quote(name) + [':']) == |name| + 3
  {
    PlainText(name);
    EncodeAscii(Quote(name) + [':']);
  }

  lemma NamedBytes(name: string, value: Value)
    requires forall i :: 0 <= i < |name| ==> !Special(name[i]) && name[i] as int < 0x80
    ensures Bytes(PrintField((name, value))) == |name| + 3 + Bytes(PrintValue(value))
  {
    hide Quote, Encode;
    NameBytes(name);
    EncodeConcat(Quote(name) + [':'], PrintValue(value));
  }

  lemma BracketBytes(left: char, text: string, right: char)
    requires left as int < 0x80 && right as int < 0x80
    ensures Bytes([left] + text + [right]) == Bytes(text) + 2
  {
    EncodeAscii([left]);
    EncodeAscii([right]);
    EncodeConcat([left], text);
    EncodeConcat([left] + text, [right]);
  }

  lemma ListValueBytes(ids: seq<string>)
    requires ids != []
    ensures Bytes(PrintValue(Strs(ids))) == ListBytes(ids) + 1
  {
    hide Bytes, PrintElements, ListBytes;
    PrintedListBytes(ids);
    BracketBytes('[', PrintElements(ids), ']');
  }

  /** A list that is printed only when it is not empty. */
  lemma ListFieldBytes(name: string, ids: seq<string>)
    requires forall i :: 0 <= i < |name| ==> !Special(name[i]) && name[i] as int < 0x80
    ensures FieldsBytes(if ids == [] then [] else [(name, Strs(ids))]) == if ids == [] then 0 else |name| + 5 + ListBytes(ids)
  {
    hide Bytes, PrintField, ListBytes, PrintElements;
    NoFieldBytes();
    if ids != [] {
      OneFieldBytes((name, Strs(ids)));
      NamedBytes(name, Strs(ids));
      ListValueBytes(ids);
    }
  }

  /** The three fields that are always printed. */
  lemma FirstFieldsBytes(kind: string, query: string)
    ensures FieldsBytes([("v", Num(VERSION)), ("kind", Str(kind)), ("query", Str(query))])
            == 23 + Bytes(Quote(kind)) + Bytes(Quote(query))
  {
    hide Bytes, PrintField, Quote, FieldsBytes;
    var f1, f2, f3: Field := ("v", Num(VERSION)), ("kind", Str(kind)), ("query", Str(query));
    assert [f1, f2, f3] == [f1] + [f2] + [f3];
    FieldsBytesConcat([f1] + [f2], [f3]);
    FieldsBytesConcat([f1], [f2]);
    OneFieldBytes(f1);
    OneFieldBytes(f2);
    OneFieldBytes(f3);
    VersionBytes();
    NamedBytes("v", Num(VERSION));
    NamedBytes("kind", Str(kind));
    NamedBytes("query", Str(query));
  }

  lemma LastFieldBytes(token: string)
    ensures FieldsBytes(if token == "" then [] else [("gmail_page_token", Str(token))])
            == if token == "" then 0 else 20 + Bytes(Quote(token))
  {
    hide Bytes, PrintField, Quote;
    NoFieldBytes();
    if token != "" {
      OneFieldBytes(("gmail_page_token", Str(token)));
      NamedBytes("gmail_page_token", Str(token));
    }
  }

  lemma RecordBytes(c: Cursor)
    ensures Bytes(PrintObject(ToFields(c.(v := VERSION)))) == CursorBytes(c)
  {
    hide Bytes, PrintField, Quote, PrintElements, ListBytes, FieldsBytes, PrintFields;
    var fs := ToFields(c.(v := VERSION));
    var first: seq<Field> := [("v", Num(VERSION)), ("kind", Str(c.kind)), ("query", Str(c.query))];
    var p: seq<Field> := if c.pending == [] then [] else [("pending_ids", Strs(c.pending))];
    var r: seq<Field> := if c.returned == [] then [] else [("returned_ids", Strs(c.returned))];
    var t: seq<Field> := if c.token == "" then [] else [("gmail_page_token", Str(c.token))];
    assert fs == first + p + r + t;
    FieldsBytesConcat(first + p + r, t);
    FieldsBytesConcat(first + p, r);
    FieldsBytesConcat(first, p);
    FirstFieldsBytes(c.kind, c.query);
    ListFieldBytes("pending_ids", c.pending);
    ListFieldBytes("returned_ids", c.returned);
    LastFieldBytes(c.token);
    PrintedFieldsBytes(fs);
    BracketBytes('{', PrintFields(fs), '}');
  }

  lemma VersionBytes()
    ensures Bytes(PrintValue(Num(VERSION))) == 1
  {}

  lemma NoFieldBytes()
    ensures FieldsBytes([]) == 0
  {}

  /** The length of a token, from the lengths of its parts. */
  lemma TokenLength(c: Cursor)
    requires c.pending != [] || !Blank(c.token)
    ensures |EncodeToken(c)| == 5 + (CursorBytes(c) * 4 + 2) / 3
  {
    hide Text.Trim, Base64.Encode, Encode, PrintObject, ToFields, CursorBytes;
    RecordBytes(c);
    Base64.EncodedText(Encode(PrintObject(ToFields(c.(v := VERSION)))), false);
  }

  // ---- requests and frames ---------------------------------------------------------------

  /** A search request but for its query and page token. */
  datatype Form = Form(id: string, call: string, limit: int, includeBody: bool, includeAttachments: bool)

  function LimitText(limit: int): string {
    if limit == 0 then ""
    else [','] + (Quote("limit") + [':'] + if limit < 0 then ['-'] + Itoa(-limit) else Itoa(limit))
  }

  function Envelope(f: Form): string {
    "{\"v\":1,\"id\":" + Quote(f.id) + ",\"method\":" + Quote(f.call) + ",\"params\":"
  }

  function RequestHead(f: Form, query: string): string {
    Envelope(f) + (['{'] + (Quote("query") + [':'] + Quote(query)) + LimitText(f.limit))
  }

  function RequestTail(f: Form): string {
    (if f.includeBody then ",\"include_body\":true" else "")
    + (if f.includeAttachments then ",\"include_attachments\":true" else "") + "}}"
  }

  function TokenText(token: string): string {
    if token == "" then "" else [','] + (Quote("page_token") + [':'] + Quote(token))
  }

  /** The marshalled request; an empty token is omitted. */
  function RequestText(f: Form, query: string, token: string): string {
    RequestHead(f, query) + TokenText(token) + RequestTail(f)
  }

  /** Bytes of a request with a token but for the token's characters. */
  function RequestRest(f: Form, query: string): nat {
    Bytes(RequestHead(f, query)) + 16 + Bytes(RequestTail(f))
  }

  /** The broker reads this request from its frame. */
  predicate CanAsk(f: Form, query: string, token: string) {
    Bytes(RequestText(f, query, token)) <= REQUEST_MAX_BYTES
  }

  /** ... and otherwise refuses it as too large. */
  lemma FrameDecides(f: Form, query: string, token: string, rest: seq<Byte>)
    requires Bytes(RequestText(f, query, token)) < Framing.UINT32
    ensures var payload := Encode(RequestText(f, query, token));
            Framing.ReadSpec(Framing.Frame(payload) + rest, REQUEST_MAX_BYTES).0
            == if CanAsk(f, query, token) then Framing.Payload(payload) else Framing.TooLarge
  {
    hide RequestHead, RequestTail;
    var payload := Encode(RequestText(f, query, token));
    RequestNotEmpty(f, query, token);
    if CanAsk(f, query, token) {
      Framing.FrameBack(payload, REQUEST_MAX_BYTES, rest);
    } else {
      assert (Framing.Frame(payload) + rest)[..4] == Framing.BigEndian(|payload|);
      Framing.SizeBack(|payload|);
    }
  }

  lemma RequestNotEmpty(f: Form, query: string, token: string)
    ensures Encode(RequestText(f, query, token)) != []
  {
    hide Quote, LimitText, TokenText, RequestTail, Encode;
    var text := RequestText(f, query, token);
    assert text[0] == '{';
    EncodeConcat([text[0]], text[1..]);
    EncodeAscii([text[0]]);
    assert text == [text[0]] + text[1..];
  }

  lemma TokenTextBytes(token: string)
    requires token != "" && forall i :: 0 <= i < |token| ==> !Special(token[i]) && token[i] as int < 0x80
    ensures Bytes(TokenText(token)) == 16 + |token|
  {
    hide Quote, Encode;
    NamedBytes("page_token", Str(token));
    QuotedBytes(token);
    EncodeAscii([',']);
    EncodeConcat([','], Quote("page_token") + [':'] + Quote(token));
  }

  lemma QuotedBytes(text: string)
    requires forall i :: 0 <= i < |text| ==> !Special(text[i]) && text[i] as int < 0x80
    ensures Bytes(Quote(text)) == |text| + 2
  {
    PlainText(text);
    EncodeAscii(Quote(text));
  }

  /** A token is carried character for character. */
  lemma RequestLength(f: Form, query: string, c: Cursor)
    requires c.pending != [] || !Blank(c.token)
    ensures Bytes(RequestText(f, query, EncodeToken(c))) == RequestRest(f, query) + |EncodeToken(c)|
  {
    hide Text.Trim, Base64.Encode, Encode, PrintObject, ToFields, RequestHead, RequestTail, EscapeAll;
    var record := Encode(PrintObject(ToFields(c.(v := VERSION))));
    var token := EncodeToken(c);
    Base64.EncodedText(record, false);
    forall i | 0 <= i < |token| ensures !Special(token[i]) && token[i] as int < 0x80 {
      if i >= |PREFIX| { assert Base64.InAlphabet(Base64.Encode(record, false)[i - |PREFIX|]); }
    }
    PlainText(token);
    var middle := TokenText(token);
    TokenTextBytes(token);
    EncodeConcat(RequestHead(f, query), middle);
    EncodeConcat(RequestHead(f, query) + middle, RequestTail(f));
  }

  // ---- long runs -------------------------------------------------------------------------

  /** The token is that of an unfinished cursor that holds the ids. */
  ghost predicate Carries<T>(x: Context<T>, token: string, c: Cursor, ids: seq<string>) {
    && token == EncodeToken(c) && (c.pending != [] || !Blank(c.token))
    && c.kind == x.kind && c.query == x.query && c.returned == ids
  }

  lemma AnswerCursor<T>(x: Context<T>, r: Paging.Request, raw: string, log: seq<Search.Call<T>>, before: seq<string>)
    returns (c: Cursor)
    requires Ready(x, raw, log, before)
    ensures var a := Respond(x, r, raw, log); a.Answer? && a.next != "" ==> Carries(x, a.next, c, before + a.ids)
  {
    hide EncodeToken, DecodeToken, Search.Scan, Tidy, Backed, Genuine, Blank;
    c := Cursor(VERSION, x.kind, x.query, [], [], "");
    if Respond(x, r, raw, log).Answer? {
      var e := AnswerKeepsReady(x, r, raw, log, before);
      c := Cursor(VERSION, x.kind, x.query, e.pending, e.returned, e.token);
      EmptyTokenMeansFinished(c);
    }
  }

  /** The token of a run that is not over carries every id returned. */
  lemma {:induction false} RunCursor<T>(x: Context<T>, rs: seq<Paging.Request>, replies: seq<Reply<T>>) returns (c: Cursor)
    requires IsRun(x, rs, replies) && !Over(replies)
    ensures LastToken(replies) != "" ==> Carries(x, LastToken(replies), c, AllIds(replies))
    ensures LastToken(replies) == "" ==> AllIds(replies) == []
    decreases |rs|
  {
    c := Cursor(VERSION, x.kind, x.query, [], [], "");
    if rs != [] {
      hide AllIds, LastToken, LastLog, Over, IsRun, SafeRun, Carries, Respond, Ready;
      var n := |rs| - 1;
      var init := replies[..n];
      RunInit(x, rs, replies);
      AfterReply(replies);
      if replies[n].Error? {
        c := RunCursor(x, rs[..n], init);
      } else {
        RunState(x, rs[..n], init);
        c := AnswerCursor(x, rs[n], LastToken(init), LastLog(init), AllIds(init));
      }
    }
  }

  lemma {:induction false} ListBytesAtLeast(ids: seq<string>)
    requires forall id :: id in ids ==> id != ""
    ensures ListBytes(ids) >= 4 * |ids|
  {
    hide Bytes, Quote;
    if ids != [] {
      assert ids[0] in ids && forall id :: id in ids[1..] ==> id in ids;
      QuoteBytes(ids[0]);
      ListBytesAtLeast(ids[1..]);
    }
  }

  lemma {:induction false} EscapedAtLeast(s: string)
    ensures Bytes(EscapeAll(s)) >= |s|
  {
    hide EncodeChar, EscapeChar;
    if s != [] {
      EscapedAtLeast(s[1..]);
      EncodeConcat(EscapeChar(s[0]), EscapeAll(s[1..]));
      assert EscapeChar(s[0]) != [] by { EscapeSomething(s[0]); }
    }
  }

  lemma EscapeSomething(c: char)
    ensures EscapeChar(c) != []
  {}

  lemma QuoteBytes(s: string)
    ensures Bytes(Quote(s)) >= |s| + 2
  {
    hide Bytes, EscapeAll;
    BracketBytes('"', EscapeAll(s), '"');
    EscapedAtLeast(s);
  }

  /** When the next request of a run fits its frame, exactly. */
  lemma NextRequestFits<T>(x: Context<T>, rs: seq<Paging.Request>, replies: seq<Reply<T>>, f: Form, query: string)
    returns (c: Cursor)
    requires IsRun(x, rs, replies) && !Over(replies) && LastToken(replies) != ""
    ensures LastToken(replies) == EncodeToken(c) && c.returned == AllIds(replies) && c.kind == x.kind && c.query == x.query
    ensures CanAsk(f, query, LastToken(replies))
            <==> RequestRest(f, query) + 5 + (CursorBytes(c) * 4 + 2) / 3 <= REQUEST_MAX_BYTES
    ensures CursorBytes(c) >= 41 + ListBytes(AllIds(replies))
  {
    hide IsRun, Over, LastToken, AllIds, EncodeToken, RequestText, RequestRest, Bytes, ListBytes, Quote;
    c := RunCursor(x, rs, replies);
    TokenLength(c);
    RequestLength(f, query, c);
    NoListBytes();
    FewestBytes(c);
  }

  lemma NoListBytes()
    ensures ListBytes([]) == 0
  {}

  lemma FewestBytes(c: Cursor)
    requires c.pending != [] || !Blank(c.token)
    ensures CursorBytes(c) >= 41 + ListBytes(c.returned)
  {
    hide Text.Trim, Bytes, Quote;
    QuoteBytes(c.kind);
    QuoteBytes(c.query);
    TrimEmpty();
  }

  /** As long as the next request fits, fewer than 196608 ids have been returned. */
  lemma AskingIsBounded<T>(x: Context<T>, rs: seq<Paging.Request>, replies: seq<Reply<T>>, f: Form, query: string)
    requires IsRun(x, rs, replies) && !Over(replies) && CanAsk(f, query, LastToken(replies))
    ensures |AllIds(replies)| < 196608
  {
    hide IsRun, Over, LastToken, AllIds, CanAsk, ListBytes, CursorBytes, RequestRest, SafeReply, Offered, Genuine;
    var c := RunCursor(x, rs, replies);
    if LastToken(replies) != "" {
      c := NextRequestFits(x, rs, replies, f, query);
      RunState(x, rs, replies);
      forall id | id in AllIds(replies) ensures id != "" {
        var i :| 0 <= i < |AllIds(replies)| && AllIds(replies)[i] == id;
      }
      ListBytesAtLeast(AllIds(replies));
    }
  }

  /** So a search with more visible ids cannot be finished by requests that the
      broker reads, whatever else they hold: the token has outgrown its frame first. */
  lemma LongSearchNeverFinishes<T>(x: Context<T>, m: Mailbox, rs: seq<Paging.Request>, replies: seq<Reply<T>>,
                                   fs: seq<Form>, queries: seq<string>)
    requires Serves(x.g, m) && IsRun(x, rs, replies) && |fs| == |queries| == |rs|
    requires forall i :: 0 <= i < |rs| ==> CanAsk(fs[i], queries[i], LastToken(replies[..i]))
    requires |Expected(m.vis, m.all)| >= 196608 + if x.max <= 0 then Search.DEFAULT_SEARCH_LIMIT else x.max
    ensures !Over(replies)
  {
    hide Serves, AllIds, LastToken, LastLog, CanAsk, Expected, Resumable, Begins, SafeReply, Ready, Respond;
    if Over(replies) {
      FinishedNeedsMore(x, m, rs, replies, fs, queries);
    }
  }

  lemma FinishedNeedsMore<T>(x: Context<T>, m: Mailbox, rs: seq<Paging.Request>, replies: seq<Reply<T>>,
                             fs: seq<Form>, queries: seq<string>)
    requires Serves(x.g, m) && IsRun(x, rs, replies) && |fs| == |queries| == |rs| && Over(replies)
    requires forall i :: 0 <= i < |rs| ==> CanAsk(fs[i], queries[i], LastToken(replies[..i]))
    ensures |Expected(m.vis, m.all)| < 196608 + if x.max <= 0 then Search.DEFAULT_SEARCH_LIMIT else x.max
  {
    assert rs != [];
    hide Serves, AllIds, LastToken, LastLog, Over, CanAsk, Expected, Resumable, Begins, SafeReply, Ready, Respond, IsRun;
    var n := |rs| - 1;
    var init := replies[..n];
    RunInit(x, rs, replies);
    AfterReply(replies);
    AskingIsBounded(x, rs[..n], init, fs[n], queries[n]);
    var q := RunTracks(x, m, rs, replies);
    RunState(x, rs[..n], init);
    var e := AnswerKeepsReady(x, rs[n], LastToken(init), LastLog(init), AllIds(init));
  }

  // ---- the request as JSON -----------------------------------------------------------------

  /** The parameters of a request that asks for no bodies or attachments and whose limit
      is not negative; zero and empty values are omitted. */
  function Params(f: Form, query: string, token: string): seq<Field>
    requires f.limit >= 0
  {
    [("query", Str(query))] + (if f.limit == 0 then [] else [("limit", Num(f.limit))])
    + (if token == "" then [] else [("page_token", Str(token))])
  }

  /** Such a request is the envelope around a record that reads back as its parameters. */
  lemma RequestReads(f: Form, query: string, token: string) returns (record: string)
    requires f.limit >= 0 && !f.includeBody && !f.includeAttachments
    ensures RequestText(f, query, token)
         == Envelope(f) + record + "}"
    ensures ReadObject(record) == Good(Params(f, query, token), "")
  {
    hide ReadObject, Quote, PrintFields, Envelope, LimitText, TokenText;
    var fs := Params(f, query, token);
    record := PrintObject(fs);
    ObjectBack(fs);
    ParamsPrinted(f, query, token);
    Regrouped(Envelope(f), PrintField(("query", Str(query))), LimitText(f.limit), TokenText(token));
  }

  lemma ParamsPrinted(f: Form, query: string, token: string)
    requires f.limit >= 0
    ensures PrintFields(Params(f, query, token)) == PrintField(("query", Str(query))) + LimitText(f.limit) + TokenText(token)
  {
    hide PrintField, PrintFields, LimitText, TokenText;
    var fs := Params(f, query, token);
    var q, l, t: Field := ("query", Str(query)), ("limit", Num(f.limit)), ("page_token", Str(token));
    ThreeFields(q, l, t);
    FieldTexts(f.limit, token);
    Commas(PrintField(q), PrintField(l), PrintField(t));
    if f.limit == 0 && token == "" {
      assert fs == [q];
    } else if f.limit == 0 {
      assert fs == [q, t];
    } else if token == "" {
      assert fs == [q, l];
    } else {
      assert fs == [q, l, t];
    }
  }

  lemma Commas(q: string, l: string, t: string)
    ensures q + "" + "" == q
    ensures q + "" + ([','] + t) == q + [','] + t
    ensures q + ([','] + l) + "" == q + [','] + l
    ensures q + ([','] + l) + ([','] + t) == q + [','] + (l + [','] + t)
  {}

  lemma FieldTexts(limit: nat, token: string)
    ensures LimitText(limit) == if limit == 0 then "" else [','] + PrintField(("limit", Num(limit)))
    ensures TokenText(token) == if token == "" then "" else [','] + PrintField(("page_token", Str(token)))
  {
    hide Quote, Itoa;
  }

  lemma Regrouped(env: string, q: string, l: string, t: string)
    ensures env + (['{'] + q + l) + t + "}}" == env + (['{'] + (q + l + t) + ['}']) + "}"
  {}

  lemma ThreeFields(q: Field, l: Field, t: Field)
    ensures PrintFields([q]) == PrintField(q)
    ensures PrintFields([q, l]) == PrintField(q) + [','] + PrintField(l)
    ensures PrintFields([q, t]) == PrintField(q) + [','] + PrintField(t)
    ensures PrintFields([q, l, t]) == PrintField(q) + [','] + (PrintField(l) + [','] + PrintField(t))
  {
    hide PrintField;
    assert [q, l][1..] == [l] && [q, t][1..] == [t] && [q, l, t][1..] == [l, t] && [l, t][1..] == [t];
  }

  /** A negative limit is sent as well, with its sign. */
  lemma NegativeLimit(f: Form, query: string)
    requires f.limit < 0
    ensures RequestHead(f, query) == RequestHead(f.(limit := 0), query) + LimitText(f.limit)
    ensures LimitText(f.limit) == [','] + (Quote("limit") + [':'] + (['-'] + Itoa(-f.limit)))
  {
    hide Quote, Itoa, LimitText;
    assert LimitText(f.limit) == [','] + (Quote("limit") + [':'] + (['-'] + Itoa(-f.limit))) by { NegativeText(f.limit); }
    assert LimitText(0) == "" by { NoLimitText(); }
    assert Envelope(f) == Envelope(f.(limit := 0));
    Appended(Envelope(f), ['{'] + (Quote("query") + [':'] + Quote(query)), LimitText(f.limit));
  }

  lemma NegativeText(limit: int)
    requires limit < 0
    ensures LimitText(limit) == [','] + (Quote("limit") + [':'] + (['-'] + Itoa(-limit)))
  {
    hide Quote, Itoa;
  }

  lemma NoLimitText()
    ensures LimitText(0) == ""
  {
    hide Quote, Itoa;
  }

  lemma Appended(a: string, b: string, c: string)
    ensures a + (b + c) == a + (b + "") + c
  {}
}
