/** The request handlers over a Gmail account (internal/broker/server.go), each as
    a response together with the calls it made. */
module Handlers {
  import opened Options
  import opened Lists
  import opened Text
  import opened Headers
  import opened Utf8
  import Policy
  import Attachments
  import AttachmentSize
  import Body
  import Base64
  import Newest
  import Draft
  import DraftMessage
  import Replies
  import Search
  import Paging

  /** A Gmail message; its payload holds the headers. */
  datatype Message = Message(id: string, threadId: string, labelIDs: seq<string>, snippet: string, internalDate: int,
                             payload: Attachments.Part)

  datatype Thread = Thread(id: string, messages: seq<Message>)

  datatype Got<T> = Ok(value: T) | Err(fault: Search.Fault)

  datatype DraftInput = DraftInput(mail: Draft.Input, threadId: string)

  /** The ids of a draft that Gmail has made. */
  datatype Created = Created(draftID: string, messageID: string, threadID: string)

  /** Gmail: the answer to a call may depend on how many calls the request made
      before. A draft is made of a raw message and the id of its thread. */
  datatype World = World(
    listMessages: (nat, nat, string) -> Search.ListReply,
    listThreads: (nat, nat, string) -> Search.ListReply,
    metadata: (nat, string) -> Got<Message>,
    threadMetadata: (nat, string) -> Got<Thread>,
    full: (nat, string) -> Got<Message>,
    attachment: (nat, string, string) -> Got<seq<Byte>>,
    createDraft: (nat, string, string) -> Got<Created>)

  /** `rules` is None for a broker without a policy. */
  datatype Config = Config(rules: Option<Policy.Rules>, account: string, library: Draft.Library,
                           maxSearchResults: int, maxBodyBytes: int, maxAttachmentBytes: int)

  datatype Call =
    | Listing
    | Metadata(asked: string, reply: Got<Message>)
    | ThreadMetadata(asked: string, thread: Got<Thread>)
    | Full(asked: string)
    | Attachment(asked: string, token: string)
    | CreateReply(anchor: Message, raw: string, threadID: string)
    | CreateNew(raw: string)

  datatype Summary = Summary(id: string, threadId: string, parts: Policy.Participants, subject: string, snippet: string,
                             receivedAt: string)

  datatype Detail = Detail(summary: Summary, attachments: seq<Attachments.Meta>, body: Option<(seq<Byte>, bool)>)

  /** Participants are sorted in the response, so they are a set here. */
  datatype ThreadSummary = ThreadSummary(threadId: string, subject: string, participants: set<string>, snippet: string,
                                         count: nat, lastMessageAt: string)

  datatype Response =
    | Error(code: string)
    | MessageResult(message: Detail)
    | MessagesResult(summaries: seq<Summary>, nextPage: string)
    | DetailsResult(details: seq<Detail>, nextPage: string)
    | ThreadsResult(threads: seq<ThreadSummary>, nextPage: string)
    | ThreadDetail(threadId: string, bodies: seq<Detail>)
    | ThreadSummaries(threadId: string, summaries: seq<Summary>)
    | AttachmentResult(meta: Attachments.Meta, content: seq<Byte>)
    | DraftResult(draft: Created, to: seq<string>, cc: seq<string>, bcc: seq<string>, subject: string)

  datatype Request =
    | GetMessage(messageID: string, includeBody: bool)
    | SearchMessages(query: string, limit: int, token: string, includeBody: bool, includeAttachments: bool, deadline: nat)
    | SearchThreads(query: string, limit: int, token: string, deadline: nat)
    | GetThread(threadID: string, includeBodies: bool)
    | GetAttachment(requestID: string, messageID: string, attachmentID: string)
    | CreateDraft(to: seq<string>, cc: seq<string>, bcc: seq<string>, subject: string, bodyText: string,
                  replyToMessage: string, replyToThread: string, replyAll: bool)

  // ---- policy and shapes -----------------------------------------------------------------

  function HeadersOf(msg: Message): seq<Header> {
    if msg.payload.NilPart? then [] else msg.payload.headers
  }

  /** `MessageParticipants`. */
  function PartsOf(cfg: Config, msg: Message): Policy.Participants {
    var emails := (name: string) => cfg.library.extract(HeaderValue(HeadersOf(msg), name));
    var from := emails("From");
    Policy.Participants(if from == [] then "" else from[0], emails("To"), emails("Cc"), emails("Bcc"), msg.labelIDs)
  }

  /** What the recipients of a reply are derived from. */
  function ReplyParts(cfg: Config, msg: Message): Replies.Participants {
    var parts := PartsOf(cfg, msg);
    Replies.Participants(parts.from, parts.to, parts.cc, HeaderValue(HeadersOf(msg), "Reply-To"))
  }

  predicate Allows(cfg: Config, msg: Message) {
    cfg.rules.None? || cfg.rules.value.AllowsMessage(PartsOf(cfg, msg))
  }

  function VisibleMessages(cfg: Config, messages: seq<Message>): seq<Message> {
    if messages == [] then []
    else if Allows(cfg, messages[0]) then [messages[0]] + VisibleMessages(cfg, messages[1..])
    else VisibleMessages(cfg, messages[1..])
  }

  method VisibleThreadMessages(cfg: Config, thread: Thread) returns (visible: seq<Message>)
    ensures visible == VisibleMessages(cfg, thread.messages)
  {
    visible := [];
    for i := 0 to |thread.messages|
      invariant visible + VisibleMessages(cfg, thread.messages[i..]) == VisibleMessages(cfg, thread.messages)
    {
      assert thread.messages[i..][1..] == thread.messages[i + 1..];
      if Allows(cfg, thread.messages[i]) {
        visible := visible + [thread.messages[i]];
      }
    }
  }

  predicate HasVisibleScope(cfg: Config) {
    cfg.rules.None? || !Blank(cfg.rules.value.visibilityLabel) || cfg.rules.value.allowOwnerSent
  }

  function Dated(cfg: Config, msg: Message): Newest.Message {
    var date := Trim(HeaderValue(HeadersOf(msg), "Date"));
    Newest.Message(msg.internalDate, if date == "" then "" else cfg.library.date(date))
  }

  function AllDated(cfg: Config, messages: seq<Message>): (r: seq<Newest.Message>)
    ensures |r| == |messages|
    ensures forall i :: 0 <= i < |r| ==> r[i] == Dated(cfg, messages[i])
  {
    seq(|messages|, i requires 0 <= i < |messages| => Dated(cfg, messages[i]))
  }

  function SubjectOf(msg: Message): string {
    Trim(HeaderValue(HeadersOf(msg), "Subject"))
  }

  function ReceivedAt(cfg: Config, msg: Message): string {
    Newest.ReceivedAt(Dated(cfg, msg))
  }

  function Summarise(cfg: Config, msg: Message): Summary {
    Summary(msg.id, msg.threadId, PartsOf(cfg, msg), SubjectOf(msg), Trim(msg.snippet), ReceivedAt(cfg, msg))
  }

  function Summaries(cfg: Config, messages: seq<Message>): seq<Summary> {
    seq(|messages|, i requires 0 <= i < |messages| => Summarise(cfg, messages[i]))
  }

  function Detailed(cfg: Config, msg: Message, includeBody: bool): Detail {
    Detail(Summarise(cfg, msg), Attachments.Metas(Attachments.Collect(msg.payload, [])),
           if includeBody then Some(Truncated(Body.BestBody(msg.payload), cfg.maxBodyBytes)) else None)
  }

  function Emails(parts: Policy.Participants): seq<string> {
    [parts.from] + parts.to + parts.cc + parts.bcc
  }

  /** The values trimmed, without the empty ones. */
  function NonEmpty(values: seq<string>): set<string> {
    set a | a in values && !Blank(a) :: Trim(a)
  }

  function Addresses(parts: Policy.Participants): set<string> {
    NonEmpty(Emails(parts))
  }

  function AllAddresses(cfg: Config, messages: seq<Message>): set<string> {
    if messages == [] then {} else Addresses(PartsOf(cfg, messages[0])) + AllAddresses(cfg, messages[1..])
  }

  lemma NonEmptyOneMore(values: seq<string>, n: nat)
    requires n < |values|
    ensures NonEmpty(values[..n + 1])
            == NonEmpty(values[..n]) + if Blank(values[n]) then {} else {Trim(values[n])}
  {
    hide Text.Trim;
    assert values[..n + 1] == values[..n] + [values[n]];
  }

  method AppendNew(found: seq<string>, values: seq<string>) returns (result: seq<string>)
    requires Distinct(found)
    ensures Elements(result) == Elements(found) + NonEmpty(values)
    ensures Distinct(result)
  {
    result := found;
    assert NonEmpty(values[..0]) == {};
    hide Text.Trim, NonEmpty;
    for n := 0 to |values|
      invariant Elements(result) == Elements(found) + NonEmpty(values[..n])
      invariant Distinct(result)
    {
      NonEmptyOneMore(values, n);
      var email := Trim(values[n]);
      ghost var before := result;
      if email != "" && email !in result {
        result := result + [email];
      }
      assert Elements(result) == Elements(before) + if email == "" then {} else {email};
    }
    assert values[..|values|] == values;
  }

  /** Every address once; the response sorts them. */
  method CollectParticipants(cfg: Config, messages: seq<Message>) returns (result: seq<string>)
    ensures Elements(result) == AllAddresses(cfg, messages)
    ensures Distinct(result)
  {
    hide NonEmpty, Emails, PartsOf;
    result := [];
    for i := 0 to |messages|
      invariant Elements(result) + AllAddresses(cfg, messages[i..]) == AllAddresses(cfg, messages)
      invariant Distinct(result)
    {
      assert messages[i..][1..] == messages[i + 1..];
      result := AppendNew(result, Emails(PartsOf(cfg, messages[i])));
    }
  }

  /** `BuildThreadSummary`; None is its error result. */
  function SummariseThread(cfg: Config, threadID: string, visible: seq<Message>): Option<ThreadSummary> {
    if visible == [] then None
    else
      var id := if Blank(threadID) then Trim(visible[0].threadId) else Trim(threadID);
      var newest := Newest.ByStamp(AllDated(cfg, visible));
      if id == "" || newest.None? then None
      else
        var msg := visible[newest.value];
        Some(ThreadSummary(id, SubjectOf(msg), AllAddresses(cfg, visible), Trim(msg.snippet), |visible|,
                           ReceivedAt(cfg, msg)))
  }

  // ---- fetching full messages ---------------------------------------------------------------

  /** The loop over visible messages that fetches each in full; a failed fetch
      ends the request. */
  function FetchDetails(w: World, cfg: Config, metas: seq<Message>, includeBody: bool, calls: seq<Call>)
    : (Got<seq<Detail>>, seq<Call>)
    decreases |metas|
  {
    if metas == [] then (Ok([]), calls)
    else
      var reply := w.full(|calls|, metas[0].id);
      var calls := calls + [Full(metas[0].id)];
      match reply
      case Err(fault) => (Err(fault), calls)
      case Ok(full) =>
        var (rest, calls) := FetchDetails(w, cfg, metas[1..], includeBody, calls);
        (if rest.Err? then rest else Ok([Detailed(cfg, full, includeBody)] + rest.value), calls)
  }

  method FetchAll(w: World, cfg: Config, metas: seq<Message>, includeBody: bool, calls0: seq<Call>)
    returns (r: Got<seq<Detail>>, calls: seq<Call>)
    ensures (r, calls) == FetchDetails(w, cfg, metas, includeBody, calls0)
  {
    hide Detailed;
    var details: seq<Detail> := [];
    calls := calls0;
    assert metas[0..] == metas && forall more: seq<Detail> :: details + more == more;
    for i := 0 to |metas|
      invariant
        var (whole, allCalls) := FetchDetails(w, cfg, metas, includeBody, calls0);
        var (rest, restCalls) := FetchDetails(w, cfg, metas[i..], includeBody, calls);
        allCalls == restCalls && whole == if rest.Err? then rest else Ok(details + rest.value)
    {
      assert metas[i..][1..] == metas[i + 1..];
      var reply := w.full(|calls|, metas[i].id);
      calls := calls + [Full(metas[i].id)];
      if reply.Err? {
        return Err(reply.fault), calls;
      }
      ghost var before := details;
      details := details + [Detailed(cfg, reply.value, includeBody)];
      assert forall more: seq<Detail> :: before + ([Detailed(cfg, reply.value, includeBody)] + more) == details + more;
    }
    assert details + [] == details;
    return Ok(details), calls;
  }

  // ---- searches ------------------------------------------------------------------------------

  function CheckMessage(w: World, cfg: Config, n: nat, id: string): Search.Verdict<Message> {
    match w.metadata(n, id)
    case Err(fault) => Search.CheckFault(fault)
    case Ok(msg) => if Allows(cfg, msg) then Search.Visible(msg) else Search.Hidden
  }

  function CheckThread(w: World, cfg: Config, n: nat, id: string): Search.Verdict<ThreadSummary> {
    match w.threadMetadata(n, id)
    case Err(fault) => Search.CheckFault(fault)
    case Ok(thread) =>
      var visible := VisibleMessages(cfg, thread.messages);
      if visible == [] then Search.Hidden
      else
        match SummariseThread(cfg, thread.id, visible)
        case None => Search.CheckFault(Search.Fault("internal_error"))
        case Some(summary) => Search.Visible(summary)
  }

  function MessageSearch(w: World, cfg: Config, query: string): Paging.Context<Message> {
    Paging.Context(Search.Gmail(w.listMessages, (n: nat, id: string) => CheckMessage(w, cfg, n, id)),
                   "messages", query, cfg.maxSearchResults)
  }

  function ThreadSearch(w: World, cfg: Config, query: string): Paging.Context<ThreadSummary> {
    Paging.Context(Search.Gmail(w.listThreads, (n: nat, id: string) => CheckThread(w, cfg, n, id)),
                   "threads", query, cfg.maxSearchResults)
  }

  /** The calls behind a search history. */
  function MessageCalls(w: World, log: seq<Search.Call<Message>>): (calls: seq<Call>)
    ensures |calls| == |log|
  {
    seq(|log|, t requires 0 <= t < |log| =>
      if log[t].Listed? then Listing else Metadata(log[t].id, w.metadata(t, log[t].id)))
  }

  function ThreadCalls(w: World, log: seq<Search.Call<ThreadSummary>>): (calls: seq<Call>)
    ensures |calls| == |log|
  {
    seq(|log|, t requires 0 <= t < |log| =>
      if log[t].Listed? then Listing else ThreadMetadata(log[t].id, w.threadMetadata(t, log[t].id)))
  }

  function HandleSearchMessages(w: World, cfg: Config, r: Request): (Response, seq<Call>)
    requires r.SearchMessages?
  {
    var detail := r.includeBody || r.includeAttachments;
    if !HasVisibleScope(cfg) then (if detail then DetailsResult([], "") else MessagesResult([], ""), [])
    else
      match Paging.Respond(MessageSearch(w, cfg, r.query), Paging.Request(r.limit, r.deadline), r.token, [])
      case Error(code, log) => (Error(code), MessageCalls(w, log))
      case Answer(ids, metas, next, log) =>
        var calls := MessageCalls(w, log);
        if !detail then (MessagesResult(Summaries(cfg, metas), next), calls)
        else
          match FetchDetails(w, cfg, metas, r.includeBody, calls)
          case (Err(fault), calls) => (Error(fault.code), calls)
          case (Ok(details), calls) => (DetailsResult(details, next), calls)
  }

  function HandleSearchThreads(w: World, cfg: Config, r: Request): (Response, seq<Call>)
    requires r.SearchThreads?
  {
    if !HasVisibleScope(cfg) then (ThreadsResult([], ""), [])
    else
      match Paging.Respond(ThreadSearch(w, cfg, r.query), Paging.Request(r.limit, r.deadline), r.token, [])
      case Error(code, log) => (Error(code), ThreadCalls(w, log))
      case Answer(ids, threads, next, log) => (ThreadsResult(threads, next), ThreadCalls(w, log))
  }

  // ---- single objects ------------------------------------------------------------------------

  function HandleGetMessage(w: World, cfg: Config, r: Request): (Response, seq<Call>)
    requires r.GetMessage?
  {
    var meta := w.metadata(0, r.messageID);
    var calls := [Metadata(r.messageID, meta)];
    if meta.Err? then (Error(meta.fault.code), calls)
    else if !Allows(cfg, meta.value) then (Error("policy_denied"), calls)
    else
      var full := w.full(1, r.messageID);
      var calls := calls + [Full(r.messageID)];
      if full.Err? then (Error(full.fault.code), calls)
      else (MessageResult(Detailed(cfg, full.value, r.includeBody)), calls)
  }

  function HandleGetThread(w: World, cfg: Config, r: Request): (Response, seq<Call>)
    requires r.GetThread?
  {
    var thread := w.threadMetadata(0, r.threadID);
    var calls := [ThreadMetadata(r.threadID, thread)];
    if thread.Err? then (Error(thread.fault.code), calls)
    else
      var visible := VisibleMessages(cfg, thread.value.messages);
      if visible == [] then (Error("policy_denied"), calls)
      else if !r.includeBodies then (ThreadSummaries(thread.value.id, Summaries(cfg, visible)), calls)
      else
        match FetchDetails(w, cfg, visible, true, calls)
        case (Err(fault), calls) => (Error(fault.code), calls)
        case (Ok(details), calls) => (ThreadDetail(thread.value.id, details), calls)
  }

  function HandleGetAttachment(w: World, cfg: Config, r: Request): (Response, seq<Call>)
    requires r.GetAttachment?
  {
    var meta := w.metadata(0, r.messageID);
    var calls := [Metadata(r.messageID, meta)];
    if meta.Err? then (Error(meta.fault.code), calls)
    else if !Allows(cfg, meta.value) then (Error("policy_denied"), calls)
    else
      var full := w.full(1, r.messageID);
      var calls := calls + [Full(r.messageID)];
      if full.Err? then (Error(full.fault.code), calls)
      else
        var found := Attachments.Find(full.value.payload, r.attachmentID);
        var cap := AttachmentSize.MaxAttachmentBytes(cfg.maxAttachmentBytes);
        if found.None? then (Error("not_found"), calls)
        else if found.value.meta.size > cap then (Error("too_large"), calls)
        else if found.value.IsInline() then
          var data := Base64.DecodeData(found.value.inlineData);
          (if data.None? then Error("internal_error") else AttachmentResponse(r, cap, found.value.meta, data.value), calls)
        else
          var data := w.attachment(2, r.messageID, found.value.GmailID());
          (if data.Err? then Error(data.fault.code) else AttachmentResponse(r, cap, found.value.meta, data.value),
           calls + [Attachment(r.messageID, found.value.GmailID())])
  }

  function AttachmentResponse(r: Request, cap: nat, meta: Attachments.Meta, data: seq<Byte>): Response
    requires r.GetAttachment?
  {
    if |data| > cap || AttachmentSize.TooLarge(r.requestID, meta, data) then Error("too_large") else AttachmentResult(meta, data)
  }

  // ---- drafts --------------------------------------------------------------------------------

  /** `authorizedDraftReplyAnchor`. */
  function ReplyAnchor(w: World, cfg: Config, messageID: string, threadID: string): (Got<Message>, seq<Call>) {
    var denied := Err(Search.Fault("policy_denied"));
    if messageID != "" then
      var meta := w.metadata(0, messageID);
      (if meta.Ok? && !Allows(cfg, meta.value) then denied else meta, [Metadata(messageID, meta)])
    else
      var thread := w.threadMetadata(0, threadID);
      var calls := [ThreadMetadata(threadID, thread)];
      match thread
      case Err(fault) => (Err(fault), calls)
      case Ok(t) =>
        var visible := VisibleMessages(cfg, t.messages);
        var newest := Newest.ByDate(AllDated(cfg, visible));
        (if newest.None? then denied else Ok(visible[newest.value]), calls)
  }

  function ReplySubject(subject: string): string {
    var subject := Trim(subject);
    if subject == "" then ""
    else if "re:" <= Lower(subject) then subject
    else "Re: " + subject
  }

  /** `buildDraftCreateInput` behind the anchor. */
  function ReplyInput(cfg: Config, r: Request, mail: Draft.Input, anchor: Message): Option<DraftInput>
    requires r.CreateDraft?
  {
    var context := Replies.ContextOf(HeadersOf(anchor));
    var threadId := if Blank(anchor.threadId) then Trim(r.replyToThread) else Trim(anchor.threadId);
    var subject := if Blank(mail.subject) then ReplySubject(HeaderValue(HeadersOf(anchor), "Subject")) else mail.subject;
    var mail := mail.(inReplyTo := context.inReplyTo, references := context.references, subject := subject);
    var given := |mail.to| + |mail.cc| + |mail.bcc| > 0;
    var (to, cc) := if given then (mail.to, mail.cc)
                    else Replies.Recipients(cfg.library, ReplyParts(cfg, anchor), cfg.account, r.replyAll);
    if |to| + |cc| + |mail.bcc| == 0 then None else Some(DraftInput(mail.(to := to, cc := cc), threadId))
  }

  /** `CreateDraft` of the Gmail client, for a reply to `anchor` or a new message. */
  function SendDraft(w: World, cfg: Config, input: DraftInput, anchor: Option<Message>, calls: seq<Call>)
    : (Response, seq<Call>)
  {
    match DraftMessage.RawDraft(cfg.library, input.mail)
    case None => (Error("gmail_api_error"), calls)
    case Some(raw) =>
      var threadID := Trim(input.threadId);
      var created := w.createDraft(|calls|, raw, threadID);
      (match created
       case Err(fault) => Error(fault.code)
       case Ok(ids) =>
         DraftResult(Created(Trim(ids.draftID), Trim(ids.messageID), if Blank(ids.threadID) then threadID else Trim(ids.threadID)),
                     input.mail.to, input.mail.cc, input.mail.bcc, input.mail.subject),
       calls + [if anchor.Some? then CreateReply(anchor.value, raw, threadID) else CreateNew(raw)])
  }

  /** The recipients a client gives, normalised; None if a list does not parse. */
  function GivenMail(cfg: Config, r: Request): Option<Draft.Input>
    requires r.CreateDraft?
  {
    var to, cc := DraftMessage.Normalized(cfg.library, r.to, {}), DraftMessage.Normalized(cfg.library, r.cc, {});
    var bcc := DraftMessage.Normalized(cfg.library, r.bcc, {});
    if to.None? || cc.None? || bcc.None? then None
    else Some(Draft.Input(cfg.account, to.value, cc.value, bcc.value, Trim(r.subject), r.bodyText, "", []))
  }

  function HandleCreateDraft(w: World, cfg: Config, r: Request): (Response, seq<Call>)
    requires r.CreateDraft?
  {
    match GivenMail(cfg, r)
    case None => (Error("invalid_params"), [])
    case Some(mail) =>
      var messageID, threadID := Trim(r.replyToMessage), Trim(r.replyToThread);
      if messageID == "" && threadID == "" then
        (if |mail.to| + |mail.cc| + |mail.bcc| == 0 then (Error("invalid_params"), [])
         else SendDraft(w, cfg, DraftInput(mail, ""), None, []))
      else
        var (anchor, calls) := ReplyAnchor(w, cfg, messageID, threadID);
        match anchor
        case Err(fault) => (Error(fault.code), calls)
        case Ok(msg) =>
          match ReplyInput(cfg, r, mail, msg)
          case None => (Error("invalid_params"), calls)
          case Some(input) => SendDraft(w, cfg, input, Some(msg), calls)
  }

  /** One request: its response and the calls it made, in order. */
  function Handle(w: World, cfg: Config, r: Request): (Response, seq<Call>) {
    match r
    case GetMessage(_, _) => HandleGetMessage(w, cfg, r)
    case SearchMessages(_, _, _, _, _, _) => HandleSearchMessages(w, cfg, r)
    case SearchThreads(_, _, _, _) => HandleSearchThreads(w, cfg, r)
    case GetThread(_, _) => HandleGetThread(w, cfg, r)
    case GetAttachment(_, _, _) => HandleGetAttachment(w, cfg, r)
    case CreateDraft(_, _, _, _, _, _, _, _) => HandleCreateDraft(w, cfg, r)
  }
}
