/** The size of attachment responses (internal/broker/server.go, internal/rpc/client.go). */
module AttachmentSize {
  import opened Options
  import opened Text
  import opened Utf8
  import Base64
  import Json
  import Attachments

  const TRANSPORT_SAFE_BYTES: nat := 23 * 1024 * 1024
  const RESPONSE_MAX_BYTES: nat := 32 * 1024 * 1024

  function MaxAttachmentBytes(configured: int): (r: nat)
    ensures 1 <= r <= TRANSPORT_SAFE_BYTES
    ensures 1 <= configured <= TRANSPORT_SAFE_BYTES ==> r == configured
    ensures configured < 1 || configured > TRANSPORT_SAFE_BYTES ==> r == TRANSPORT_SAFE_BYTES
  {
    if configured <= 0 then TRANSPORT_SAFE_BYTES
    else if configured > TRANSPORT_SAFE_BYTES then TRANSPORT_SAFE_BYTES
    else configured
  }

  /** The standard alphabet has `+` and `/` where the URL alphabet has `-` and `_`
      (section 4 of RFC 4648). */
  function Standard(text: string): (r: string)
    ensures |r| == |text|
  {
    seq(|text|, i requires 0 <= i < |text| =>
      if text[i] == '-' then '+' else if text[i] == '_' then '/' else text[i])
  }

  function Content(data: seq<Byte>): string {
    Standard(Base64.Encode(data, true))
  }

  function PrintInt(n: int): string {
    if n < 0 then ['-'] + Itoa(-n) else Itoa(n)
  }

  function Envelope(id: string): string {
    "{\"v\":1,\"id\":" + Json.Quote(id) + ",\"ok\":true,\"result\":{\"attachment\":"
  }

  /** A member of a JSON object whose value is printed already. */
  function Member(name: string, value: string): string {
    Json.Quote(name) + [':'] + value
  }

  /** The marshalled response up to the attachment's content. */
  function Head(id: string, meta: Attachments.Meta): string {
    Envelope(id) +
    (['{'] + (Member("attachment_id", Json.Quote(meta.attachmentID)) + [',']
              + (Member("filename", Json.Quote(meta.filename)) + [',']
                 + (Member("mime_type", Json.Quote(meta.mimeType)) + [',']
                    + (Member("size", PrintInt(meta.size)) + [',']
                       + (Json.Quote("content_base64") + [':']))))))
  }

  /** The marshalled response to request `id`. */
  function Response(id: string, meta: Attachments.Meta, data: seq<Byte>): seq<Byte> {
    Encode(Head(id, meta) + (Json.Quote(Content(data)) + "}}}"))
  }

  /** Bytes of the response but for the content's characters. */
  function Rest(id: string, meta: Attachments.Meta): nat {
    |Encode(Head(id, meta))| + 5
  }

  /** `buildAttachmentResponse` reports the attachment as too large. */
  predicate TooLarge(id: string, meta: Attachments.Meta, data: seq<Byte>) {
    |Response(id, meta, data)| > RESPONSE_MAX_BYTES
  }

  /** Base64 content needs no JSON escaping and one byte a character, so its part
      in the response is exact. */
  lemma ResponseLength(id: string, meta: Attachments.Meta, data: seq<Byte>)
    ensures Json.EscapeAll(Content(data)) == Content(data)
    ensures |Response(id, meta, data)| == Rest(id, meta) + (|data| + 2) / 3 * 4
  {
    hide Head, Encode, Base64.Encode, Json.EscapeAll;
    var text := Base64.Encode(data, true);
    Base64.EncodedText(data, true);
    forall i | 0 <= i < |Content(data)| ensures !Json.Special(Content(data)[i]) && Content(data)[i] as int < 0x80 {
      assert Base64.InAlphabet(text[i]) || text[i] == '=';
    }
    Json.PlainText(Content(data));
    var tail := Json.Quote(Content(data)) + "}}}";
    assert |tail| == |Content(data)| + 5;
    EncodeAscii(tail);
    EncodeConcat(Head(id, meta), tail);
  }

  lemma ContentFits(n: nat)
    requires n <= TRANSPORT_SAFE_BYTES
    ensures (n + 2) / 3 * 4 <= 32156332
    ensures (TRANSPORT_SAFE_BYTES + 2) / 3 * 4 == 32156332
  {
    assert (n + 2) / 3 <= 8039083;
  }

  /** Within the cap the frame check fails exactly when the rest of the response
      is too long for the content, which takes more than 1398100 bytes; and that
      bound is the best one. */
  lemma FrameCheck(configured: int, id: string, meta: Attachments.Meta, data: seq<Byte>)
    requires |data| <= MaxAttachmentBytes(configured)
    ensures TooLarge(id, meta, data) <==> Rest(id, meta) > RESPONSE_MAX_BYTES - (|data| + 2) / 3 * 4
    ensures TooLarge(id, meta, data) ==> Rest(id, meta) > 1398100
    ensures |data| == TRANSPORT_SAFE_BYTES ==> (TooLarge(id, meta, data) <==> Rest(id, meta) > 1398100)
  {
    hide Response, Rest;
    ResponseLength(id, meta, data);
    ContentFits(|data|);
  }

  /** The URL alphabet for the standard one. */
  function UrlSafe(text: string): string {
    seq(|text|, i requires 0 <= i < |text| => if text[i] == '+' then '-' else if text[i] == '/' then '_' else text[i])
  }

  /** The content is the data in padded base64 with the standard alphabet. */
  lemma ContentBack(data: seq<Byte>)
    ensures Base64.Decode(UrlSafe(Content(data)), true) == Some(data)
    ensures forall i :: 0 <= i < |Content(data)| ==> Content(data)[i] != '-' && Content(data)[i] != '_'
  {
    hide Base64.Encode, Base64.DecodeGroups;
    var text := Base64.Encode(data, true);
    Base64.EncodedText(data, true);
    Base64.DecodeOfEncode(data, true);
    assert UrlSafe(Content(data)) == text;
  }

  /** The response of a part whose size is not negative, as JSON: the envelope around a
      record that reads back as the part's metadata and content. */
  lemma ResponseReads(id: string, meta: Attachments.Meta, data: seq<Byte>) returns (record: string)
    requires meta.size >= 0
    ensures Response(id, meta, data)
         == Encode(Envelope(id) + record + "}}")
    ensures Json.ReadObject(record) ==
              Json.Good([("attachment_id", Json.Str(meta.attachmentID)), ("filename", Json.Str(meta.filename)),
                         ("mime_type", Json.Str(meta.mimeType)), ("size", Json.Num(meta.size)),
                         ("content_base64", Json.Str(Content(data)))], "")
  {
    hide Content, Encode, Json.ReadObject, Json.Quote, Json.PrintFields, Envelope;
    var f1, f2, f3 := ("attachment_id", Json.Str(meta.attachmentID)), ("filename", Json.Str(meta.filename)), ("mime_type", Json.Str(meta.mimeType));
    var f4, f5 := ("size", Json.Num(meta.size)), ("content_base64", Json.Str(Content(data)));
    record := Json.PrintObject([f1, f2, f3, f4, f5]);
    Json.ObjectBack([f1, f2, f3, f4, f5]);
    FiveFields(f1, f2, f3, f4, f5);
    Regrouped(Envelope(id), Json.PrintField(f1), Json.PrintField(f2), Json.PrintField(f3), Json.PrintField(f4),
              Json.Quote("content_base64") + [':'], Json.Quote(Content(data)));
  }

  lemma Regrouped(env: string, a: string, b: string, c: string, d: string, n: string, q: string)
    ensures env + (['{'] + (a + [','] + (b + [','] + (c + [','] + (d + [','] + n))))) + (q + "}}}")
         == env + (['{'] + (a + [','] + (b + [','] + (c + [','] + (d + [','] + (n + q))))) + ['}']) + "}}"
  {
    assert d + [','] + n + q == d + [','] + (n + q);
    assert q + "}}}" == q + ['}'] + "}}";
  }

  lemma FiveFields(f1: Json.Field, f2: Json.Field, f3: Json.Field, f4: Json.Field, f5: Json.Field)
    ensures Json.PrintFields([f1, f2, f3, f4, f5])
         == Json.PrintField(f1) + [','] + (Json.PrintField(f2) + [','] + (Json.PrintField(f3) + [',']
            + (Json.PrintField(f4) + [','] + Json.PrintField(f5))))
  {
    hide Json.PrintField;
    MoreFields(f4, [f5]);
    MoreFields(f3, [f4, f5]);
    MoreFields(f2, [f3, f4, f5]);
    MoreFields(f1, [f2, f3, f4, f5]);
    assert [f4] + [f5] == [f4, f5] && [f3] + [f4, f5] == [f3, f4, f5];
    assert [f2] + [f3, f4, f5] == [f2, f3, f4, f5] && [f1] + [f2, f3, f4, f5] == [f1, f2, f3, f4, f5];
  }

  lemma MoreFields(f: Json.Field, fs: seq<Json.Field>)
    requires fs != []
    ensures Json.PrintFields([f] + fs) == Json.PrintField(f) + [','] + Json.PrintFields(fs)
  {
    assert ([f] + fs)[1..] == fs;
  }
}
