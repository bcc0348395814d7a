/** What a draft request answers, and what the draft says when it is read back
    (internal/broker/server.go, internal/gmailapi/draft.go). */
module Responses {
  import opened Options
  import opened Text
  import opened Headers
  import opened Handlers
  import opened Answers
  import Search
  import Newest
  import Draft
  import DraftMessage
  import Replies

  // ---- the raw draft -------------------------------------------------------------------------

  /** The header lists the addresses as the mail library reads them back: each as
      itself when it is plain, and otherwise what they normalise to again. */
  ghost predicate Names(lib: Draft.Library, headers: seq<Header>, name: string, addresses: seq<string>) {
    var again := DraftMessage.Normalized(lib, addresses, {});
    && again.Some? && HeaderValue(headers, name) == Join(again.value, ", ")
    && (DraftMessage.Plain(lib, addresses) ==> again.value == addresses)
  }

  lemma NamesThem(lib: Draft.Library, headers: seq<Header>, name: string, addresses: seq<string>)
    requires DraftMessage.BareList(addresses) && DraftMessage.Normalized(lib, addresses, {}).Some?
    requires HeaderValue(headers, name) == Trim(Join(DraftMessage.Normalized(lib, addresses, {}).value, ", "))
    ensures Names(lib, headers, name, addresses)
  {
    hide HeaderValue, Join;
    DraftMessage.NormalizedMeans(lib, addresses, {});
    DraftMessage.ListPrinted(DraftMessage.Normalized(lib, addresses, {}).value);
    if DraftMessage.Plain(lib, addresses) { DraftMessage.NormalizedAgain(lib, addresses, {}); }
  }

  datatype Mail = Mail(to: seq<string>, cc: seq<string>, bcc: seq<string>, subject: string)

  /** The subject line: the words by single spaces, encoded if that is not ASCII. */
  ghost predicate SubjectLine(lib: Draft.Library, line: string, subject: string) {
    var words := Join(Fields(subject), " ");
    line == Trim(if forall i :: 0 <= i < |words| ==> words[i] as int < 128 then words else lib.encode(words))
  }

  /** The raw draft, read back: from the account, to these recipients, with this
      subject, body and thread, as plain UTF-8 text. */
  ghost predicate Carries(cfg: Config, raw: string, mail: Mail, bodyText: string, context: Replies.ReplyContext) {
    DraftMessage.ReadRaw(raw).Some? &&
    var (headers, body) := DraftMessage.ReadRaw(raw).value;
    && DraftMessage.Normalized(cfg.library, [cfg.account], {}) == Some([HeaderValue(headers, "From")])
    && Names(cfg.library, headers, "To", mail.to)
    && Names(cfg.library, headers, "Cc", mail.cc)
    && Names(cfg.library, headers, "Bcc", mail.bcc)
    && SubjectLine(cfg.library, HeaderValue(headers, "Subject"), mail.subject)
    && HeaderValue(headers, "MIME-Version") == "1.0"
    && HeaderValue(headers, "Content-Type") == "text/plain; charset=\"UTF-8\""
    && HeaderValue(headers, "Content-Transfer-Encoding") == "8bit"
    && HeaderValue(headers, "In-Reply-To") == context.inReplyTo
    && HeaderValue(headers, "References") == Join(context.references, " ")
    && body == Draft.NormalizeBody(bodyText)
  }

  lemma FixedValues()
    ensures Trim("1.0") == "1.0" && Trim("8bit") == "8bit"
    ensures Trim("text/plain; charset=\"UTF-8\"") == "text/plain; charset=\"UTF-8\""
  {
    assert !IsSpace('1') && !IsSpace('0') && !IsSpace('8') && !IsSpace('t') && !IsSpace('"');
    assert Trimmed("1.0") && Trimmed("8bit") && Trimmed("text/plain; charset=\"UTF-8\"");
  }

  ghost predicate BareMail(mail: Draft.Input) {
    DraftMessage.BareList(mail.to) && DraftMessage.BareList(mail.cc) && DraftMessage.BareList(mail.bcc)
  }

  /** The input's threading values are printed as they are. */
  ghost predicate Threaded(mail: Draft.Input, context: Replies.ReplyContext) {
    && mail.inReplyTo == context.inReplyTo && mail.references == context.references
    && Trim(Draft.Sanitize(mail.inReplyTo)) == context.inReplyTo
    && Trim(Draft.Sanitize(Join(mail.references, " "))) == Join(context.references, " ")
  }

  lemma RawCarries(cfg: Config, mail: Draft.Input, context: Replies.ReplyContext)
    requires DraftMessage.OneLine(cfg.library) && BareMail(mail) && mail.from == cfg.account && Threaded(mail, context)
    requires DraftMessage.RawDraft(cfg.library, mail).Some?
    ensures Carries(cfg, DraftMessage.RawDraft(cfg.library, mail).value, Mail(mail.to, mail.cc, mail.bcc, mail.subject), mail.bodyText,
                    context)
  {
    hide Text.Trim, DraftMessage.RawDraft, DraftMessage.ReadRaw, DraftMessage.Kept, HeaderValue, Draft.Sanitize,
      Draft.NormalizeBody, Draft.EncodeHeaderValue, Join, Fields, DraftMessage.BareList, DraftMessage.Normalized, Names;
    var lib := cfg.library;
    DraftMessage.DraftRoundTrip(lib, mail);
    Replies.SentHeaders(lib, mail);
    Draft.SubjectPrinted(lib, mail.subject);
    FixedValues();
    SenderTrimmed(lib, mail.from);
    var headers := DraftMessage.Kept(DraftMessage.DraftHeaders(lib, mail).value);
    NamesThem(lib, headers, "To", mail.to);
    NamesThem(lib, headers, "Cc", mail.cc);
    NamesThem(lib, headers, "Bcc", mail.bcc);
  }

  lemma SenderTrimmed(lib: Draft.Library, from: string)
    ensures var sender := DraftMessage.Normalized(lib, [from], {});
            sender.Some? && |sender.value| == 1 ==> sender == Some([Trim(sender.value[0])])
  {
    hide Text.Trim, DraftMessage.Normalized;
    if DraftMessage.Normalized(lib, [from], {}).Some? {
      DraftMessage.NormalizedMeans(lib, [from], {});
      var sender := DraftMessage.Normalized(lib, [from], {}).value;
      if |sender| == 1 { assert sender[0] in sender && sender == [sender[0]]; }
    }
  }

  // ---- sending -------------------------------------------------------------------------------

  /** The account is one address, and the recipient lists can be read again. */
  ghost predicate Sendable(cfg: Config, mail: Mail) {
    var sender := DraftMessage.Normalized(cfg.library, [cfg.account], {});
    && sender.Some? && |sender.value| == 1
    && DraftMessage.Normalized(cfg.library, mail.to, {}).Some?
    && DraftMessage.Normalized(cfg.library, mail.cc, {}).Some?
    && DraftMessage.Normalized(cfg.library, mail.bcc, {}).Some?
  }

  /** The draft was handed to Gmail under the thread, and the response is Gmail's answer. */
  ghost predicate Sent(w: World, cfg: Config, mail: Mail, bodyText: string, context: Replies.ReplyContext, threadID: string,
                       anchor: Option<Message>, before: seq<Call>, response: Response, calls: seq<Call>) {
    if !Sendable(cfg, mail) then response == Error("gmail_api_error") && calls == before
    else
      exists raw ::
        && Carries(cfg, raw, mail, bodyText, context)
        && calls == before + [if anchor.Some? then CreateReply(anchor.value, raw, threadID) else CreateNew(raw)]
        && response == SentAnswer(w.createDraft(|before|, raw, threadID), mail, threadID)
  }

  function SentAnswer(created: Got<Created>, mail: Mail, threadID: string): Response {
    match created
    case Err(fault) => Error(fault.code)
    case Ok(ids) =>
      DraftResult(Created(Trim(ids.draftID), Trim(ids.messageID), if Trim(ids.threadID) == "" then threadID else Trim(ids.threadID)),
                  mail.to, mail.cc, mail.bcc, mail.subject)
  }

  lemma SendMeans(w: World, cfg: Config, input: DraftInput, anchor: Option<Message>, before: seq<Call>, context: Replies.ReplyContext)
    requires DraftMessage.OneLine(cfg.library) && BareMail(input.mail) && input.mail.from == cfg.account && Threaded(input.mail, context)
    ensures var (response, calls) := SendDraft(w, cfg, input, anchor, before);
            Sent(w, cfg, Mail(input.mail.to, input.mail.cc, input.mail.bcc, input.mail.subject), input.mail.bodyText, context,
                 Trim(input.threadId), anchor, before, response, calls)
  {
    hide Text.Trim, DraftMessage.RawDraft, DraftMessage.DraftHeaders, DraftMessage.Normalized, DraftMessage.OneLine, Carries, BareMail, Threaded;
    DraftMessage.DraftRoundTrip(cfg.library, input.mail);
    if DraftMessage.RawDraft(cfg.library, input.mail).Some? { RawCarries(cfg, input.mail, context); }
  }

  // ---- new drafts ----------------------------------------------------------------------------

  /** The recipients that a client gives. */
  function Given(cfg: Config, values: seq<string>): Option<seq<string>> {
    DraftMessage.Normalized(cfg.library, values, {})
  }

  lemma GivenMailMeans(cfg: Config, r: Request)
    requires r.CreateDraft?
    ensures GivenMail(cfg, r).Some? <==> Given(cfg, r.to).Some? && Given(cfg, r.cc).Some? && Given(cfg, r.bcc).Some?
    ensures GivenMail(cfg, r).Some? ==>
              && GivenMail(cfg, r).value == Draft.Input(cfg.account, Given(cfg, r.to).value, Given(cfg, r.cc).value, Given(cfg, r.bcc).value,
                                                        Trim(r.subject), r.bodyText, "", [])
              && BareMail(GivenMail(cfg, r).value)
  {
    hide Text.Trim, DraftMessage.Normalized, DraftMessage.BareList;
    if GivenMail(cfg, r).Some? {
      DraftMessage.NormalizedMeans(cfg.library, r.to, {});
      DraftMessage.NormalizedMeans(cfg.library, r.cc, {});
      DraftMessage.NormalizedMeans(cfg.library, r.bcc, {});
    }
  }

  /** A draft that answers nothing is made of what the client gave, if the lists can be
      read and name someone. */
  lemma NewDraftMeans(w: World, cfg: Config, r: Request)
    requires r.CreateDraft? && Trim(r.replyToMessage) == "" && Trim(r.replyToThread) == "" && DraftMessage.OneLine(cfg.library)
    ensures var (response, calls) := Handle(w, cfg, r);
            var to, cc, bcc := Given(cfg, r.to), Given(cfg, r.cc), Given(cfg, r.bcc);
            if to.None? || cc.None? || bcc.None? || |to.value| + |cc.value| + |bcc.value| == 0 then
              (response, calls) == (Error("invalid_params"), [])
            else
              Sent(w, cfg, Mail(to.value, cc.value, bcc.value, Trim(r.subject)), r.bodyText, Replies.ReplyContext("", []), "", None, [],
                   response, calls)
  {
    hide Text.Trim, DraftMessage.OneLine, DraftMessage.Normalized, SendDraft, BareMail, Sent, Draft.Sanitize, Join;
    GivenMailMeans(cfg, r);
    TrimEmpty();
    Replies.NoReferences();
    if GivenMail(cfg, r).Some? {
      SendMeans(w, cfg, DraftInput(GivenMail(cfg, r).value, ""), None, [], Replies.ReplyContext("", []));
    }
  }

  // ---- reply drafts --------------------------------------------------------------------------

  ghost predicate IsNewest(visible: seq<Message>, k: nat) {
    && k < |visible|
    && (forall i :: 0 <= i < |visible| ==> visible[i].internalDate <= visible[k].internalDate)
    && (forall i :: 0 <= i < k ==> visible[i].internalDate < visible[k].internalDate)
  }

  const DENIED := Search.Fault("policy_denied")

  /** The message that a reply answers: the one asked for, or the first newest of the
      permitted messages of the thread; it must be permitted. */
  ghost predicate AnchorOf(w: World, cfg: Config, messageID: string, threadID: string, anchor: Got<Message>) {
    if messageID != "" then
      match w.metadata(0, messageID)
      case Err(fault) => anchor == Err(fault)
      case Ok(m) => anchor == if Permitted(cfg, m) then Ok(m) else Err(DENIED)
    else
      match w.threadMetadata(0, threadID)
      case Err(fault) => anchor == Err(fault)
      case Ok(thread) =>
        exists visible :: Selects(cfg, thread.messages, visible) &&
          if visible == [] then anchor == Err(DENIED)
          else exists k: nat :: IsNewest(visible, k) && anchor == Ok(visible[k])
  }

  /** The one call that finds the message. */
  function AnchorCalls(w: World, messageID: string, threadID: string): seq<Call> {
    [if messageID != "" then Metadata(messageID, w.metadata(0, messageID))
     else ThreadMetadata(threadID, w.threadMetadata(0, threadID))]
  }

  lemma AnchorMeans(w: World, cfg: Config, messageID: string, threadID: string)
    ensures AnchorOf(w, cfg, messageID, threadID, ReplyAnchor(w, cfg, messageID, threadID).0)
    ensures ReplyAnchor(w, cfg, messageID, threadID).1 == AnchorCalls(w, messageID, threadID)
  {
    hide Text.Trim, Allows, Permitted, HeaderValue, Newest.ByDate, VisibleMessages, Selects;
    if messageID != "" {
      if w.metadata(0, messageID).Ok? { PermittedExactly(cfg, w.metadata(0, messageID).value); }
    } else if w.threadMetadata(0, threadID).Ok? {
      var messages := w.threadMetadata(0, threadID).value.messages;
      var visible := VisibleMessages(cfg, messages);
      VisibleSelects(cfg, messages);
      var dated := AllDated(cfg, visible);
      Newest.ByDateIsFirst(dated);
      if visible != [] {
        assert dated[0] == Handlers.Dated(cfg, visible[0]) && dated[0].Message?;
        var k := Newest.ByDate(dated).value;
        forall i | 0 <= i < |visible|
          ensures visible[i].internalDate <= visible[k].internalDate && (i < k ==> visible[i].internalDate < visible[k].internalDate)
        {
          assert dated[i] == Handlers.Dated(cfg, visible[i]) && dated[k] == Handlers.Dated(cfg, visible[k]);
        }
        assert IsNewest(visible, k);
      }
    }
  }

  /** The subject of a reply: the given one or, if that is blank, the message's own
      behind one reply prefix in any letter case. */
  ghost predicate RepliesUnder(subject: string, given: string, own: string) {
    var t := Trim(own);
    if Trim(given) != "" then subject == Trim(given)
    else if t == "" then subject == ""
    else if |t| >= 3 && Lower(t[..3]) == "re:" then subject == t
    else subject == "Re: " + t
  }

  lemma ReplySubjectMeans(given: string, own: string)
    ensures RepliesUnder(if Trim(given) == "" then ReplySubject(own) else Trim(given), given, own)
  {
    hide Text.Trim;
    var t := Trim(own);
    if |t| >= 3 { assert Lower(t)[..3] == Lower(t[..3]); }
  }

  /** Whom a reply goes to: the given recipients or, when none is given, those that are
      derived from the address headers of the message. */
  function ReplyRecipients(cfg: Config, r: Request, m: Message): (seq<string>, seq<string>)
    requires r.CreateDraft? && Given(cfg, r.to).Some? && Given(cfg, r.cc).Some? && Given(cfg, r.bcc).Some?
  {
    var to, cc, bcc := Given(cfg, r.to).value, Given(cfg, r.cc).value, Given(cfg, r.bcc).value;
    if |to| + |cc| + |bcc| > 0 then (to, cc)
    else Replies.Recipients(cfg.library,
                            Replies.Participants(Sender(cfg, m), HeaderEmails(cfg, m, "To"), HeaderEmails(cfg, m, "Cc"), ReadHeader(m, "Reply-To")),
                            cfg.account, r.replyAll)
  }

  lemma ReplyPartsMean(cfg: Config, m: Message)
    ensures ReplyParts(cfg, m)
         == Replies.Participants(Sender(cfg, m), HeaderEmails(cfg, m, "To"), HeaderEmails(cfg, m, "Cc"), ReadHeader(m, "Reply-To"))
  {
    hide PartsOf, ReadHeader, HeadersOf;
    PartsMean(cfg, m);
    HeaderRead(m, "Reply-To");
  }

  /** A reply draft is made of what the client gave and of the message it answers, if
      that is permitted and someone receives it; it is filed under the message's thread. */
  lemma ReplyDraftMeans(w: World, cfg: Config, r: Request) returns (anchor: Got<Message>)
    requires r.CreateDraft? && (Trim(r.replyToMessage) != "" || Trim(r.replyToThread) != "") && DraftMessage.OneLine(cfg.library)
    ensures var (response, calls) := Handle(w, cfg, r);
            if Given(cfg, r.to).None? || Given(cfg, r.cc).None? || Given(cfg, r.bcc).None? then
              (response, calls) == (Error("invalid_params"), [])
            else
              AnchorOf(w, cfg, Trim(r.replyToMessage), Trim(r.replyToThread), anchor) &&
              match anchor
              case Err(fault) => response == Error(fault.code) && calls == AnchorCalls(w, Trim(r.replyToMessage), Trim(r.replyToThread))
              case Ok(m) => Replied(w, cfg, r, m, response, calls)
  {
    hide Text.Trim, Allows, Permitted, Given, GivenMail, ReplyAnchor, ReplyInput, SendDraft, AnchorOf, Replied, DraftMessage.OneLine;
    var messageID, threadID := Trim(r.replyToMessage), Trim(r.replyToThread);
    anchor := ReplyAnchor(w, cfg, messageID, threadID).0;
    AnchorMeans(w, cfg, messageID, threadID);
    GivenMailMeans(cfg, r);
    if GivenMail(cfg, r).Some? && anchor.Ok? { AnchorReplied(w, cfg, r, anchor.value); }
  }

  /** The answer to a reply to `m`. */
  ghost predicate Replied(w: World, cfg: Config, r: Request, m: Message, response: Response, calls: seq<Call>)
    requires r.CreateDraft? && Given(cfg, r.to).Some? && Given(cfg, r.cc).Some? && Given(cfg, r.bcc).Some?
  {
    var (to, cc) := ReplyRecipients(cfg, r, m);
    var bcc := Given(cfg, r.bcc).value;
    var threadID := if Trim(m.threadId) == "" then Trim(r.replyToThread) else Trim(m.threadId);
    if |to| + |cc| + |bcc| == 0 then response == Error("invalid_params")
    else
      exists subject :: RepliesUnder(subject, r.subject, ReadHeader(m, "Subject")) &&
        Sent(w, cfg, Mail(to, cc, bcc, subject), r.bodyText, Replies.ContextOf(HeadersOf(m)), threadID, Some(m),
             AnchorCalls(w, Trim(r.replyToMessage), Trim(r.replyToThread)), response, calls)
  }

  /** The input of a reply, spelled out. */
  lemma ReplyInputMeans(cfg: Config, r: Request, mail: Draft.Input, m: Message)
    requires r.CreateDraft? && GivenMail(cfg, r) == Some(mail)
    requires Given(cfg, r.to).Some? && Given(cfg, r.cc).Some? && Given(cfg, r.bcc).Some?
    ensures var (to, cc) := ReplyRecipients(cfg, r, m);
            var bcc, context := Given(cfg, r.bcc).value, Replies.ContextOf(HeadersOf(m));
            var input := ReplyInput(cfg, r, mail, m);
            && (input.None? <==> |to| + |cc| + |bcc| == 0)
            && (input.Some? ==>
                  && input.value.threadId == (if Trim(m.threadId) == "" then Trim(r.replyToThread) else Trim(m.threadId))
                  && RepliesUnder(input.value.mail.subject, r.subject, ReadHeader(m, "Subject"))
                  && input.value.mail == Draft.Input(cfg.account, to, cc, bcc, input.value.mail.subject, r.bodyText, context.inReplyTo,
                                                     context.references)
                  && BareMail(input.value.mail) && Threaded(input.value.mail, context))
  {
    hide Text.Trim, DraftMessage.BareList, DraftMessage.Normalized, Replies.Recipients, Replies.ContextOf, ReplySubject, PartsOf, HeaderValue,
      ReadHeader, HeadersOf, Sender, HeaderEmails, RepliesUnder, Join, Draft.Sanitize;
    GivenMailMeans(cfg, r);
    ReplyPartsMean(cfg, m);
    HeaderRead(m, "Subject");
    TrimTwice(r.subject);
    ReplySubjectMeans(r.subject, ReadHeader(m, "Subject"));
    Replies.ContextPrinted(HeadersOf(m));
    Replies.RecipientsBare(cfg.library, ReplyParts(cfg, m), cfg.account, r.replyAll);
  }

  lemma AnchorReplied(w: World, cfg: Config, r: Request, m: Message)
    requires r.CreateDraft? && (Trim(r.replyToMessage) != "" || Trim(r.replyToThread) != "") && DraftMessage.OneLine(cfg.library)
    requires Given(cfg, r.to).Some? && Given(cfg, r.cc).Some? && Given(cfg, r.bcc).Some? && GivenMail(cfg, r).Some?
    requires ReplyAnchor(w, cfg, Trim(r.replyToMessage), Trim(r.replyToThread)).0 == Ok(m)
    ensures Replied(w, cfg, r, m, HandleCreateDraft(w, cfg, r).0, HandleCreateDraft(w, cfg, r).1)
  {
    hide Text.Trim, Given, GivenMail, ReplyAnchor, ReplyInput, ReplyRecipients, SendDraft, Sent, BareMail, Threaded, RepliesUnder,
      DraftMessage.OneLine, Replies.ContextOf, HeadersOf, ReadHeader;
    var mail := GivenMail(cfg, r).value;
    var before := ReplyAnchor(w, cfg, Trim(r.replyToMessage), Trim(r.replyToThread)).1;
    AnchorMeans(w, cfg, Trim(r.replyToMessage), Trim(r.replyToThread));
    ReplyInputMeans(cfg, r, mail, m);
    var input := ReplyInput(cfg, r, mail, m);
    if input.Some? {
      TrimTwice(m.threadId);
      TrimTwice(r.replyToThread);
      SendMeans(w, cfg, input.value, Some(m), before, Replies.ContextOf(HeadersOf(m)));
    }
  }

  // ---- the first recipient -------------------------------------------------------------------

  /** `a` is the first usable address of the header. */
  ghost predicate FirstUsable(lib: Draft.Library, header: string, a: string) {
    && Trim(header) != "" && lib.parse(Trim(header)).Some? && a != ""
    && var addrs := lib.parse(Trim(header)).value;
       exists k :: 0 <= k < |addrs| && Lower(Trim(addrs[k])) == a && forall i :: 0 <= i < k ==> Lower(Trim(addrs[i])) == ""
  }

  ghost predicate NoneUsable(lib: Draft.Library, header: string) {
    Trim(header) == "" || lib.parse(Trim(header)).None? || forall x :: x in lib.parse(Trim(header)).value ==> Lower(Trim(x)) == ""
  }

  /** Without given recipients a reply, to all or not, goes first to the first usable
      address of Reply-To or, without one, to the sender, unless that is the owner. */
  lemma ReplyGoesFirst(w: World, cfg: Config, r: Request, a: string)
    requires r.CreateDraft? && (Trim(r.replyToMessage) != "" || Trim(r.replyToThread) != "") && DraftMessage.OneLine(cfg.library)
    requires Given(cfg, r.to) == Some([]) && Given(cfg, r.cc) == Some([]) && Given(cfg, r.bcc) == Some([])
    requires a != Lower(Trim(cfg.account))
    ensures var (response, calls) := Handle(w, cfg, r);
            response.DraftResult? ==>
              && |calls| == 2 && calls[1].CreateReply?
              && var m := calls[1].anchor;
              && (FirstUsable(cfg.library, ReadHeader(m, "Reply-To"), a) ==> response.to != [] && response.to[0] == a)
              && (NoneUsable(cfg.library, ReadHeader(m, "Reply-To")) && a == Lower(Trim(Sender(cfg, m))) && a != "" ==>
                    response.to != [] && response.to[0] == a)
  {
    hide Text.Trim, Given, Handle, AnchorOf, Carries, Replies.Recipients, Lower, RepliesUnder, ReplyAnchor, HeadersOf, ReadHeader, Sender,
      HeaderEmails, DraftMessage.OneLine, Sendable;
    var anchor := ReplyDraftMeans(w, cfg, r);
    AnchorMeans(w, cfg, Trim(r.replyToMessage), Trim(r.replyToThread));
    var (response, calls) := Handle(w, cfg, r);
    if response.DraftResult? {
      var m := anchor.value;
      RecipientsStart(cfg.library, Replies.Participants(Sender(cfg, m), HeaderEmails(cfg, m, "To"), HeaderEmails(cfg, m, "Cc"), ReadHeader(m, "Reply-To")),
                      cfg.account, r.replyAll, a);
    }
  }

  lemma RecipientsStart(lib: Draft.Library, parts: Replies.Participants, account: string, replyAll: bool, a: string)
    requires a != Lower(Trim(account))
    ensures var to := Replies.Recipients(lib, parts, account, replyAll).0;
            && (FirstUsable(lib, parts.replyTo, a) ==> to != [] && to[0] == a)
            && (NoneUsable(lib, parts.replyTo) && a == Lower(Trim(parts.from)) && a != "" ==> to != [] && to[0] == a)
  {
    hide Text.Trim, Replies.Recipients;
    if FirstUsable(lib, parts.replyTo, a) {
      var addrs := lib.parse(Trim(parts.replyTo)).value;
      var k :| 0 <= k < |addrs| && Lower(Trim(addrs[k])) == a && forall i :: 0 <= i < k ==> Lower(Trim(addrs[i])) == "";
      Replies.ReplyToCounts(lib, parts, account, replyAll, k);
    }
    if NoneUsable(lib, parts.replyTo) && a == Lower(Trim(parts.from)) && a != "" {
      Replies.FromCounts(lib, parts, account, replyAll);
    }
  }

  /** Along a chain of replies the prefix is added once. */
  lemma ReplySubjectSettles(subject: string)
    ensures ReplySubject(ReplySubject(subject)) == ReplySubject(subject)
  {
    hide IsSpace, Text.Trim, Lower;
    var t := Trim(subject);
    TrimTwice(subject);
    if t != "" {
      TrimIsTrimmed(subject);
      PrefixedSubject(t);
    }
    TrimEmpty();
  }

  lemma PrefixedSubject(t: string)
    requires Trimmed(t) && t != ""
    ensures Trim("Re: " + t) == "Re: " + t && "re:" <= Lower("Re: " + t)
  {
    assert !IsSpace('R');
    hide IsSpace;
    var s := "Re: " + t;
    assert Trimmed(s);
    assert Lower(s)[0] == 'r' && Lower(s)[1] == 'e' && Lower(s)[2] == ':';
  }
}
