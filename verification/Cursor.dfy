/** The opaque page token of a search (internal/broker/server.go): the cursor as
    JSON, in UTF-8, in unpadded base64url, behind a fixed prefix. */
module Cursor {
  import opened Text
  import Utf8
  import Base64
  import opened Json

  datatype Cursor = Cursor(v: nat, kind: string, query: string, pending: seq<string>,
                           returned: seq<string>, token: string)

  datatype Decoded = Accepted(cursor: Cursor) | Rejected(message: string)

  const PREFIX := "sgp1:"
  const VERSION: nat := 1

  /** The record that `json.Marshal` prints; empty lists and tokens are omitted. */
  function ToFields(c: Cursor): seq<Field> {
    [("v", Num(c.v)), ("kind", Str(c.kind)), ("query", Str(c.query))]
    + (if c.pending == [] then [] else [("pending_ids", Strs(c.pending))])
    + (if c.returned == [] then [] else [("returned_ids", Strs(c.returned))])
    + (if c.token == "" then [] else [("gmail_page_token", Str(c.token))])
  }

  /** `json.Unmarshal` of one field into the cursor; other keys are ignored. */
  function SetField(d: Decoded, f: Field): Decoded {
    if d.Rejected? then d
    else
      var (key, value) := f;
      if key == "v" then (if value.Num? then Accepted(d.cursor.(v := value.n)) else Rejected("invalid page_token"))
      else if key == "kind" then
        (if value.Str? then Accepted(d.cursor.(kind := value.s)) else Rejected("invalid page_token"))
      else if key == "query" then
        (if value.Str? then Accepted(d.cursor.(query := value.s)) else Rejected("invalid page_token"))
      else if key == "pending_ids" then
        (if value.Strs? then Accepted(d.cursor.(pending := value.ss)) else Rejected("invalid page_token"))
      else if key == "returned_ids" then
        (if value.Strs? then Accepted(d.cursor.(returned := value.ss)) else Rejected("invalid page_token"))
      else if key == "gmail_page_token" then
        (if value.Str? then Accepted(d.cursor.(token := value.s)) else Rejected("invalid page_token"))
      else d
  }

  function SetFields(d: Decoded, fs: seq<Field>): Decoded
    decreases |fs|
  {
    if fs == [] then d else SetFields(SetField(d, fs[0]), fs[1..])
  }

  function EncodeToken(c: Cursor): string {
    if c.pending == [] && Blank(c.token) then ""
    else PREFIX + Base64.Encode(Utf8.Encode(PrintObject(ToFields(c.(v := VERSION)))), false)
  }

  function DecodeToken(raw: string, kind: string, query: string): Decoded {
    var blank := Cursor(VERSION, kind, query, [], [], "");
    var raw := Trim(raw);
    if raw == "" then Accepted(blank)
    else if !(PREFIX <= raw) then Accepted(blank.(token := raw))
    else
      var bytes := Base64.Decode(raw[|PREFIX|..], false);
      if bytes.None? || !Utf8.Valid(bytes.value) then Rejected("invalid page_token")
      else
        var fields := ReadObject(Utf8.Decode(bytes.value));
        if fields.Bad? then Rejected("invalid page_token")
        else
          var d := SetFields(Accepted(blank), fields.value);
          if d.Rejected? then d
          else if d.cursor.v != VERSION then Rejected("unsupported page_token version")
          else if d.cursor.kind != kind then Rejected("page_token is not valid for this search")
          else if d.cursor.query != query then Rejected("page_token does not match query")
          else d
  }

  // ---- round trip ------------------------------------------------------------------

  lemma {:induction false} SetFieldsConcat(d: Decoded, a: seq<Field>, b: seq<Field>)
    ensures SetFields(d, a + b) == SetFields(SetFields(d, a), b)
    decreases |a|
  {
    if a == [] {
      assert a + b == b;
    } else {
      assert (a + b)[1..] == a[1..] + b;
      SetFieldsConcat(SetField(d, a[0]), a[1..], b);
    }
  }

  lemma SetOne(d: Decoded, f: Field)
    ensures SetFields(d, [f]) == SetField(d, f)
  {
    assert [f][1..] == [];
  }

  /** Reading the printed record into a fresh cursor rebuilds the cursor, whatever
      kind and query the reader expects. */
  lemma FieldsBuildCursor(c: Cursor, kind: string, query: string)
    ensures SetFields(Accepted(Cursor(VERSION, kind, query, [], [], "")), ToFields(c)) == Accepted(c)
  {
    var d0 := Accepted(Cursor(VERSION, kind, query, [], [], ""));
    var f1, f2, f3: Field := ("v", Num(c.v)), ("kind", Str(c.kind)), ("query", Str(c.query));
    var p: seq<Field> := if c.pending == [] then [] else [("pending_ids", Strs(c.pending))];
    var r: seq<Field> := if c.returned == [] then [] else [("returned_ids", Strs(c.returned))];
    var t: seq<Field> := if c.token == "" then [] else [("gmail_page_token", Str(c.token))];
    assert ToFields(c) == [f1, f2, f3] + p + r + t;
    SetFieldsConcat(d0, [f1, f2, f3] + p + r, t);
    SetFieldsConcat(d0, [f1, f2, f3] + p, r);
    SetFieldsConcat(d0, [f1, f2, f3], p);
    assert [f1, f2, f3][1..] == [f2, f3] && [f2, f3][1..] == [f3];
    var d3 := SetFields(d0, [f1, f2, f3]);
    SetOne(SetField(SetField(d0, f1), f2), f3);
    assert d3 == Accepted(Cursor(c.v, c.kind, c.query, [], [], ""));
    if p != [] { SetOne(d3, p[0]); }
    var d4 := SetFields(d3, p);
    if r != [] { SetOne(d4, r[0]); }
    var d5 := SetFields(d4, r);
    if t != [] { SetOne(d5, t[0]); }
  }

  /** A token has no white space around it. */
  lemma TokenTrimmed(c: Cursor)
    requires c.pending != [] || !Blank(c.token)
    ensures var t := EncodeToken(c); t != "" && Trim(t) == t && PREFIX <= t
  {
    var bytes := Utf8.Encode(PrintObject(ToFields(c.(v := VERSION))));
    Base64.EncodedText(bytes, false);
    var t := EncodeToken(c);
    assert Trimmed(t);
  }

  /** What a client that prints such a record itself is answered, whatever it holds. */
  lemma RecordDecodes(c: Cursor, kind: string, query: string)
    ensures DecodeToken(PREFIX + Base64.Encode(Utf8.Encode(PrintObject(ToFields(c))), false), kind, query)
         == if c.v != VERSION then Rejected("unsupported page_token version")
            else if c.kind != kind then Rejected("page_token is not valid for this search")
            else if c.query != query then Rejected("page_token does not match query")
            else Accepted(c)
  {
    hide Base64.Encode, Base64.DecodeGroups, Utf8.Encode, Utf8.Decode, PrintObject, ReadObject, ToFields, IsSpace;
    var text := PrintObject(ToFields(c));
    var bytes := Utf8.Encode(text);
    var raw := PREFIX + Base64.Encode(bytes, false);
    PrefixedTrimmed(bytes);
    hide Text.Trim;
    assert raw[|PREFIX|..] == Base64.Encode(bytes, false);
    Base64.EncodedText(bytes, false);
    Base64.DecodeOfEncode(bytes, false);
    Utf8.DecodeOfEncode(text);
    HasFields(c);
    ObjectBack(ToFields(c));
    FieldsBuildCursor(c, kind, query);
  }

  lemma PrefixedTrimmed(bytes: seq<Utf8.Byte>)
    ensures Trim(PREFIX + Base64.Encode(bytes, false)) == PREFIX + Base64.Encode(bytes, false)
  {
    Base64.EncodedText(bytes, false);
    assert Trimmed(PREFIX + Base64.Encode(bytes, false));
  }

  /** A token without the prefix is Gmail's own; one whose rest is not base64url is refused. */
  lemma OtherTokens(raw: string, kind: string, query: string)
    ensures Trim(raw) == "" ==> DecodeToken(raw, kind, query) == Accepted(Cursor(1, kind, query, [], [], ""))
    ensures Trim(raw) != "" && !("sgp1:" <= Trim(raw)) ==>
              DecodeToken(raw, kind, query) == Accepted(Cursor(1, kind, query, [], [], Trim(raw)))
    ensures "sgp1:" <= Trim(raw) && Base64.Decode(Trim(raw)[5..], false).None? ==>
              DecodeToken(raw, kind, query) == Rejected("invalid page_token")
  {
    hide Text.Trim, Base64.DecodeGroups;
  }

  /** Decoding a token gives back its cursor, and only the search it was made for
      accepts it. */
  lemma TokenRoundTrip(c: Cursor, kind: string, query: string)
    requires c.pending != [] || !Blank(c.token)
    ensures DecodeToken(EncodeToken(c), kind, query)
         == if c.kind != kind then Rejected("page_token is not valid for this search")
            else if c.query != query then Rejected("page_token does not match query")
            else Accepted(c.(v := VERSION))
  {
    hide DecodeToken, Base64.Encode, Utf8.Encode, PrintObject, ToFields;
    RecordDecodes(c.(v := VERSION), kind, query);
  }

  lemma HasFields(c: Cursor)
    ensures ToFields(c) != []
  {}

  /** The empty token stands for exactly the finished searches. */
  lemma EmptyTokenMeansFinished(c: Cursor)
    ensures EncodeToken(c) == "" <==> c.pending == [] && Blank(c.token)
  {
    if c.pending != [] || !Blank(c.token) { TokenTrimmed(c); }
  }

  /** A token gives away the whole state behind it: no two unfinished states of one
      search share a token. */
  lemma TokenInjective(c: Cursor, d: Cursor)
    requires c.pending != [] || !Blank(c.token)
    requires d.pending != [] || !Blank(d.token)
    requires c.kind == d.kind && c.query == d.query
    ensures EncodeToken(c) == EncodeToken(d) <==> c.(v := VERSION) == d.(v := VERSION)
  {
    hide EncodeToken, DecodeToken;
    TokenRoundTrip(c, c.kind, c.query);
    TokenRoundTrip(d, c.kind, c.query);
    if c.(v := VERSION) == d.(v := VERSION) {
      VersionUnused(c);
      VersionUnused(d);
    }
  }

  lemma VersionUnused(c: Cursor)
    ensures EncodeToken(c.(v := VERSION)) == EncodeToken(c)
  {}
}
