/** What a request answers, field by field, from what Gmail answered it
    (internal/broker/server.go with internal/gmailapi/message.go, attachment.go and
    thread.go). Nothing here refers to how the handlers compute it. */
module Answers {
  import opened Options
  import opened Text
  import opened Headers
  import opened Utf8
  import opened Handlers
  import Search
  import Policy
  import Rfc3339
  import Newest
  import Base64
  import opened Attachments
  import AttachmentSize
  import Body
  import SearchSafety
  import Paging
  import Cursor

  // ---- one message ---------------------------------------------------------------------------

  function ReadHeader(m: Message, name: string): string {
    if m.payload.NilPart? then "" else HeaderValue(m.payload.headers, name)
  }

  /** The addresses that the mail library extracts from a header. */
  function HeaderEmails(cfg: Config, m: Message, name: string): seq<string> {
    cfg.library.extract(ReadHeader(m, name))
  }

  function Sender(cfg: Config, m: Message): string {
    var from := HeaderEmails(cfg, m, "From");
    if from == [] then "" else from[0]
  }

  lemma HeaderRead(m: Message, name: string)
    ensures HeaderValue(HeadersOf(m), name) == ReadHeader(m, name)
  {}

  /** The participants are what the address headers hold. */
  lemma PartsMean(cfg: Config, m: Message)
    ensures PartsOf(cfg, m) == Policy.Participants(Sender(cfg, m), HeaderEmails(cfg, m, "To"), HeaderEmails(cfg, m, "Cc"), HeaderEmails(cfg, m, "Bcc"),
                                                   m.labelIDs)
  {
    hide HeaderValue, HeadersOf, ReadHeader;
    HeaderRead(m, "From");
    HeaderRead(m, "To");
    HeaderRead(m, "Cc");
    HeaderRead(m, "Bcc");
  }

  /** The policy shows the message: there is none, or the message carries the label,
      or owner-sent mail is allowed and it is from the owner or labelled SENT. */
  ghost predicate Permitted(cfg: Config, m: Message) {
    cfg.rules.None? ||
    var r := cfg.rules.value;
    || (Trim(r.visibilityLabelID) != "" && exists l :: l in m.labelIDs && Trim(l) == r.visibilityLabelID)
    || (r.allowOwnerSent && r.owner != "" && r.normalize(Sender(cfg, m)) == r.owner)
    || (r.allowOwnerSent && exists l :: l in m.labelIDs && Lower(Trim(l)) == "sent")
  }

  lemma PermittedExactly(cfg: Config, m: Message)
    ensures Allows(cfg, m) <==> Permitted(cfg, m)
  {
    hide Text.Trim, Lower, PartsOf, ReadHeader;
    PartsMean(cfg, m);
    if cfg.rules.Some? { Policy.AllowsExactly(cfg.rules.value, PartsOf(cfg, m)); }
  }

  ghost predicate Dates(cfg: Config, stamp: string, m: Message) {
    && (m.internalDate > 0 ==> stamp == Rfc3339.Stamp(m.internalDate / 1000))
    && (m.internalDate <= 0 ==> stamp == if Trim(ReadHeader(m, "Date")) == "" then "" else cfg.library.date(Trim(ReadHeader(m, "Date"))))
  }

  ghost predicate ShowsMessage(cfg: Config, s: Summary, m: Message) {
    && s.id == m.id && s.threadId == m.threadId
    && s.subject == Trim(ReadHeader(m, "Subject")) && s.snippet == Trim(m.snippet)
    && s.parts.from == Sender(cfg, m) && s.parts.to == HeaderEmails(cfg, m, "To")
    && s.parts.cc == HeaderEmails(cfg, m, "Cc") && s.parts.bcc == HeaderEmails(cfg, m, "Bcc")
    && s.parts.labelIDs == m.labelIDs
    && Dates(cfg, s.receivedAt, m)
  }

  lemma SummaryShows(cfg: Config, m: Message)
    ensures ShowsMessage(cfg, Summarise(cfg, m), m)
  {
    hide Text.Trim, HeaderValue, ReadHeader, HeadersOf, PartsOf, Rfc3339.Stamp;
    PartsMean(cfg, m);
    HeaderRead(m, "Subject");
    HeaderRead(m, "Date");
  }

  /** The metadata of the part at address `q`. */
  ghost predicate Describes(meta: Meta, part: Part, q: seq<nat>) {
    && part.Part? && part.body.Body?
    && meta.attachmentID == (if Trim(part.body.attachmentId) == "" then "sg-inline:" else "sg-part:")
                            + (if q == [] then "root" else JoinPath(q))
    && meta.filename == (if Trim(part.filename) == "" then "attachment" else Trim(part.filename))
    && meta.mimeType == Trim(part.mimeType) && meta.size == part.body.size
  }

  /** All downloadable parts, in document order. */
  ghost predicate ListsAttachments(metas: seq<Meta>, root: Part) {
    exists qs: seq<seq<nat>> ::
      && |qs| == |metas| && InOrder(qs)
      && (forall i :: 0 <= i < |qs| ==> Downloadable(PartAt(root, qs[i])) && Describes(metas[i], PartAt(root, qs[i]), qs[i]))
      && (forall q :: Downloadable(PartAt(root, q)) ==> q in qs)
  }

  lemma RefDescribes(part: Part, q: seq<nat>)
    requires IsAttachmentPart(part)
    ensures Describes(RefOf(part, q).meta, part, q)
  {
    hide Text.Trim, HeaderValue, JoinPath;
  }

  lemma AttachmentsListed(root: Part)
    ensures ListsAttachments(Metas(Collect(root, [])), root)
  {
    hide Text.Trim, IsAttachmentPart, RefOf, Describes, Downloadable, Collect, PartAt, Before;
    var refs := Collect(root, []);
    var qs := ListedInOrder(root, []);
    forall i | 0 <= i < |qs|
      ensures Downloadable(PartAt(root, qs[i])) && Describes(Metas(refs)[i], PartAt(root, qs[i]), qs[i])
    {
      assert [] + qs[i] == qs[i];
      DownloadableExactly(PartAt(root, qs[i]));
      RefDescribes(PartAt(root, qs[i]), qs[i]);
    }
    forall q | Downloadable(PartAt(root, q)) ensures q in qs {
      DownloadableExactly(PartAt(root, q));
      AddressIsListed(root, [], q);
      assert [] + q == q;
      var r := RefOf(PartAt(root, q), q);
      var i :| 0 <= i < |refs| && refs[i] == r;
      assert [] + qs[i] == qs[i] && refs[i] == RefOf(PartAt(root, qs[i]), qs[i]);
      SameAddress(PartAt(root, q), q, PartAt(root, qs[i]), qs[i]);
    }
  }

  /** A reference names its address. */
  lemma SameAddress(part: Part, q: seq<nat>, other: Part, p: seq<nat>)
    requires IsAttachmentPart(part) && IsAttachmentPart(other) && RefOf(part, q) == RefOf(other, p)
    ensures q == p
  {
    hide Text.Trim, IsAttachmentPart, AttachmentID;
    IDInjective(PrefixOf(part), q, PrefixOf(other), p);
  }

  /** The body: the plain text or, if there is none, the HTML text of the message, cut
      to the longest valid prefix within the configured length. */
  ghost predicate ShowsBody(text: seq<Byte>, truncated: bool, root: Part, maxBytes: int) {
    var plain, html := Body.FirstNonEmpty(Body.Texts(root, "text/plain")), Body.FirstNonEmpty(Body.Texts(root, "text/html"));
    var whole := if plain != [] then plain else html;
    if maxBytes <= 0 then text == [] && (truncated <==> whole != [])
    else if |whole| <= maxBytes then text == whole && !truncated
    else truncated && text <= whole && LongestValid(whole, maxBytes, |text|)
  }

  lemma BodyShown(root: Part, maxBytes: int)
    ensures var (text, truncated) := Truncated(Body.BestBody(root), maxBytes); ShowsBody(text, truncated, root, maxBytes)
  {
    hide Body.BestBody, Body.Texts, Shrink;
    Body.PlainBeforeHTML(root);
    TruncatedMeans(Body.BestBody(root), maxBytes);
  }

  ghost predicate ShowsInFull(cfg: Config, d: Detail, m: Message, includeBody: bool) {
    && ShowsMessage(cfg, d.summary, m)
    && ListsAttachments(d.attachments, m.payload)
    && (d.body.Some? <==> includeBody)
    && (includeBody ==> ShowsBody(d.body.value.0, d.body.value.1, m.payload, cfg.maxBodyBytes))
  }

  lemma DetailShowsInFull(cfg: Config, m: Message, includeBody: bool)
    ensures ShowsInFull(cfg, Detailed(cfg, m, includeBody), m, includeBody)
  {
    hide Text.Trim, Summarise, ShowsMessage, ListsAttachments, ShowsBody, Collect, Body.BestBody, Truncated;
    SummaryShows(cfg, m);
    AttachmentsListed(m.payload);
    BodyShown(m.payload, cfg.maxBodyBytes);
  }

  // ---- get_message ---------------------------------------------------------------------------

  /** A get_message answers the full message if its metadata is permitted. */
  lemma GetMessageAnswers(w: World, cfg: Config, r: Request)
    requires r.GetMessage?
    ensures var response := Handle(w, cfg, r).0;
            match w.metadata(0, r.messageID)
            case Err(fault) => response == Error(fault.code)
            case Ok(meta) =>
              if !Permitted(cfg, meta) then response == Error("policy_denied")
              else
                match w.full(1, r.messageID)
                case Err(fault) => response == Error(fault.code)
                case Ok(m) => response.MessageResult? && ShowsInFull(cfg, response.message, m, r.includeBody)
  {
    hide Allows, Permitted, Detailed, ShowsInFull;
    var meta := w.metadata(0, r.messageID);
    if meta.Ok? {
      PermittedExactly(cfg, meta.value);
      if w.full(1, r.messageID).Ok? { DetailShowsInFull(cfg, w.full(1, r.messageID).value, r.includeBody); }
    }
  }

  // ---- get_thread ----------------------------------------------------------------------------

  ghost predicate Increasing(idx: seq<nat>) {
    forall i, j :: 0 <= i < j < |idx| ==> idx[i] < idx[j]
  }

  /** The permitted messages, each once and in order. */
  ghost predicate Selects(cfg: Config, messages: seq<Message>, visible: seq<Message>) {
    exists idx: seq<nat> :: SelectsAt(cfg, messages, visible, idx)
  }

  ghost predicate SelectsAt(cfg: Config, messages: seq<Message>, visible: seq<Message>, idx: seq<nat>) {
    && |idx| == |visible| && Increasing(idx)
    && (forall i :: 0 <= i < |idx| ==> idx[i] < |messages| && visible[i] == messages[idx[i]])
    && (forall k :: 0 <= k < |messages| ==> (Permitted(cfg, messages[k]) <==> k in idx))
  }

  lemma {:induction false} VisibleSelectsAt(cfg: Config, messages: seq<Message>) returns (idx: seq<nat>)
    ensures SelectsAt(cfg, messages, VisibleMessages(cfg, messages), idx)
  {
    hide Allows, Permitted, SelectsAt;
    if messages == [] {
      idx := [];
      NothingSelected(cfg);
    } else {
      var rest := VisibleSelectsAt(cfg, messages[1..]);
      PermittedExactly(cfg, messages[0]);
      idx := SelectsOneMore(cfg, messages, VisibleMessages(cfg, messages[1..]), rest);
      assert VisibleMessages(cfg, messages)
          == (if Permitted(cfg, messages[0]) then [messages[0]] else []) + VisibleMessages(cfg, messages[1..]);
    }
  }

  lemma NothingSelected(cfg: Config)
    ensures SelectsAt(cfg, [], [], [])
  {}

  lemma SelectsOneMore(cfg: Config, messages: seq<Message>, visible: seq<Message>, rest: seq<nat>) returns (idx: seq<nat>)
    requires messages != [] && SelectsAt(cfg, messages[1..], visible, rest)
    ensures SelectsAt(cfg, messages, (if Permitted(cfg, messages[0]) then [messages[0]] else []) + visible, idx)
  {
    hide Permitted, SelectsAt;
    var later := SelectsLater(cfg, messages, visible, rest);
    if Permitted(cfg, messages[0]) {
      idx := [0] + later;
      SelectsFirst(cfg, messages, visible, later);
    } else {
      idx := later;
      assert [] + visible == visible;
      SelectsAfter(cfg, messages, visible, later);
    }
  }

  /** What is selected from the messages after the first. */
  ghost predicate After(cfg: Config, messages: seq<Message>, visible: seq<Message>, later: seq<nat>) {
    && |later| == |visible| && Increasing(later)
    && (forall i :: 0 <= i < |later| ==> 0 < later[i] < |messages| && visible[i] == messages[later[i]])
    && (forall k :: 0 < k < |messages| ==> (Permitted(cfg, messages[k]) <==> k in later))
  }

  lemma SelectsLater(cfg: Config, messages: seq<Message>, visible: seq<Message>, rest: seq<nat>) returns (later: seq<nat>)
    requires messages != [] && SelectsAt(cfg, messages[1..], visible, rest)
    ensures After(cfg, messages, visible, later)
  {
    hide Permitted;
    later := seq(|rest|, i requires 0 <= i < |rest| => rest[i] + 1);
    PlacedLater(messages, visible, rest, later);
    forall k | 0 < k < |messages| ensures Permitted(cfg, messages[k]) <==> k in later {
      assert messages[k] == messages[1..][k - 1];
      InLater(rest, later, k);
    }
  }

  lemma SelectsAfter(cfg: Config, messages: seq<Message>, visible: seq<Message>, later: seq<nat>)
    requires messages != [] && After(cfg, messages, visible, later) && !Permitted(cfg, messages[0])
    ensures SelectsAt(cfg, messages, visible, later)
  {
    hide Permitted;
    assert 0 !in later;
  }

  lemma SelectsFirst(cfg: Config, messages: seq<Message>, visible: seq<Message>, later: seq<nat>)
    requires messages != [] && After(cfg, messages, visible, later) && Permitted(cfg, messages[0])
    ensures SelectsAt(cfg, messages, [messages[0]] + visible, [0] + later)
  {
    hide Permitted;
    var idx: seq<nat> := [0] + later;
    assert idx[0] == 0 && forall i :: 0 < i < |idx| ==> idx[i] == later[i - 1];
  }

  lemma PlacedLater(messages: seq<Message>, visible: seq<Message>, rest: seq<nat>, later: seq<nat>)
    requires messages != [] && |later| == |rest| == |visible| && forall i :: 0 <= i < |rest| ==> later[i] == rest[i] + 1
    requires Increasing(rest) && forall i :: 0 <= i < |rest| ==> rest[i] < |messages[1..]| && visible[i] == messages[1..][rest[i]]
    ensures Increasing(later) && forall i :: 0 <= i < |later| ==> later[i] > 0
    ensures forall i :: 0 <= i < |later| ==> later[i] < |messages| && visible[i] == messages[later[i]]
  {}

  lemma InLater(rest: seq<nat>, later: seq<nat>, k: nat)
    requires k > 0 && |later| == |rest| && forall i :: 0 <= i < |rest| ==> later[i] == rest[i] + 1
    ensures k in later <==> k - 1 in rest
  {
    if k - 1 in rest {
      var i :| 0 <= i < |rest| && rest[i] == k - 1;
      assert later[i] == k;
    }
  }

  lemma VisibleSelects(cfg: Config, messages: seq<Message>)
    ensures Selects(cfg, messages, VisibleMessages(cfg, messages))
  {
    var idx := VisibleSelectsAt(cfg, messages);
  }

  /** Only one list is that of the permitted messages. */
  lemma SelectsUnique(cfg: Config, messages: seq<Message>, a: seq<Message>, b: seq<Message>)
    requires Selects(cfg, messages, a) && Selects(cfg, messages, b)
    ensures a == b
  {
    hide Permitted;
    var p :| SelectsAt(cfg, messages, a, p);
    var q :| SelectsAt(cfg, messages, b, q);
    forall k ensures k in p <==> k in q {
      if k in p { assert 0 <= k < |messages|; }
      if k in q { assert 0 <= k < |messages|; }
    }
    IncreasingUnique(p, q);
  }

  lemma {:induction false} IncreasingUnique(p: seq<nat>, q: seq<nat>)
    requires Increasing(p) && Increasing(q) && forall k :: k in p <==> k in q
    ensures p == q
  {
    assert (p != [] ==> p[0] in p) && (q != [] ==> q[0] in q);
    if p != [] && q != [] {
      assert p[0] in q && q[0] in p;
      assert p[0] == q[0];
      forall k ensures k in p[1..] <==> k in q[1..] {
        if k in p[1..] { assert k in p && k != p[0]; }
        if k in q[1..] { assert k in q && k != q[0]; }
      }
      IncreasingUnique(p[1..], q[1..]);
      assert p == [p[0]] + p[1..] && q == [q[0]] + q[1..];
    }
  }

  /** The full messages of `metas`, fetched in order from call `from` on: all of them,
      or the error of the first that fails. */
  ghost predicate Fetches(w: World, cfg: Config, metas: seq<Message>, from: nat, includeBody: bool, r: Got<seq<Detail>>) {
    match r
    case Ok(details) =>
      |details| == |metas| && forall i :: 0 <= i < |metas| ==> ShowsFetched(cfg, details[i], w.full(from + i, metas[i].id), includeBody)
    case Err(fault) =>
      exists k :: 0 <= k < |metas| && w.full(from + k, metas[k].id) == Err(fault)
                  && forall i :: 0 <= i < k ==> w.full(from + i, metas[i].id).Ok?
  }

  ghost predicate ShowsFetched(cfg: Config, d: Detail, answer: Got<Message>, includeBody: bool) {
    answer.Ok? && ShowsInFull(cfg, d, answer.value, includeBody)
  }

  lemma {:induction false} DetailsFetched(w: World, cfg: Config, metas: seq<Message>, includeBody: bool, calls: seq<Handlers.Call>)
    ensures Fetches(w, cfg, metas, |calls|, includeBody, FetchDetails(w, cfg, metas, includeBody, calls).0)
    decreases |metas|
  {
    hide Detailed, ShowsInFull;
    if metas != [] {
      var answer := w.full(|calls|, metas[0].id);
      var more := calls + [Full(metas[0].id)];
      DetailsFetched(w, cfg, metas[1..], includeBody, more);
      if answer.Ok? {
        DetailShowsInFull(cfg, answer.value, includeBody);
        var rest := FetchDetails(w, cfg, metas[1..], includeBody, more).0;
        FetchesOneMore(w, cfg, metas, |calls|, includeBody, Detailed(cfg, answer.value, includeBody), rest);
      }
    }
  }

  lemma FetchesOneMore(w: World, cfg: Config, metas: seq<Message>, from: nat, includeBody: bool, first: Detail, rest: Got<seq<Detail>>)
    requires metas != [] && ShowsFetched(cfg, first, w.full(from, metas[0].id), includeBody)
    requires Fetches(w, cfg, metas[1..], from + 1, includeBody, rest)
    ensures Fetches(w, cfg, metas, from, includeBody, if rest.Err? then rest else Ok([first] + rest.value))
  {
    hide ShowsInFull;
    if rest.Err? {
      var k :| 0 <= k < |metas[1..]| && w.full(from + 1 + k, metas[1..][k].id) == Err(rest.fault)
               && forall i :: 0 <= i < k ==> w.full(from + 1 + i, metas[1..][i].id).Ok?;
      assert metas[1..][k] == metas[k + 1];
      forall i | 0 <= i < k + 1 ensures w.full(from + i, metas[i].id).Ok? {
        if i > 0 { assert metas[1..][i - 1] == metas[i] && w.full(from + 1 + (i - 1), metas[1..][i - 1].id).Ok?; }
      }
      assert w.full(from + (k + 1), metas[k + 1].id) == Err(rest.fault);
    } else {
      forall i | 0 <= i < |metas|
        ensures ShowsFetched(cfg, ([first] + rest.value)[i], w.full(from + i, metas[i].id), includeBody)
      {
        if i > 0 {
          assert metas[1..][i - 1] == metas[i];
          assert ShowsFetched(cfg, rest.value[i - 1], w.full(from + 1 + (i - 1), metas[1..][i - 1].id), includeBody);
        }
      }
    }
  }

  /** A get_thread answers the permitted messages of the thread, as summaries or in
      full, under the thread's id. */
  lemma GetThreadAnswers(w: World, cfg: Config, r: Request) returns (visible: seq<Message>)
    requires r.GetThread?
    ensures var response := Handle(w, cfg, r).0;
            match w.threadMetadata(0, r.threadID)
            case Err(fault) => response == Error(fault.code)
            case Ok(thread) =>
              && Selects(cfg, thread.messages, visible)
              && (visible == [] ==> response == Error("policy_denied"))
              && (visible != [] && !r.includeBodies ==>
                    && response.ThreadSummaries? && response.threadId == thread.id && |response.summaries| == |visible|
                    && forall i :: 0 <= i < |visible| ==> ShowsMessage(cfg, response.summaries[i], visible[i]))
              && (visible != [] && r.includeBodies ==>
                    (response.ThreadDetail? && response.threadId == thread.id
                     && Fetches(w, cfg, visible, 1, true, Ok(response.bodies)))
                    || (response.Error? && Fetches(w, cfg, visible, 1, true, Err(Search.Fault(response.code)))))
  {
    hide Allows, Permitted, FetchDetails, Fetches, Selects, Summarise, ShowsMessage, VisibleMessages;
    visible := [];
    var thread := w.threadMetadata(0, r.threadID);
    if thread.Ok? {
      visible := VisibleMessages(cfg, thread.value.messages);
      VisibleSelects(cfg, thread.value.messages);
      var calls := [ThreadMetadata(r.threadID, thread)];
      forall i | 0 <= i < |visible| ensures ShowsMessage(cfg, Summaries(cfg, visible)[i], visible[i]) {
        SummaryShows(cfg, visible[i]);
      }
      DetailsFetched(w, cfg, visible, true, calls);
    }
  }

  // ---- search_messages -----------------------------------------------------------------------

  /** There is something that the policy can show. */
  ghost predicate Scope(cfg: Config) {
    cfg.rules.None? || Trim(cfg.rules.value.visibilityLabel) != "" || cfg.rules.value.allowOwnerSent
  }

  /** Gmail's answers to the message search, and the searches behind the two requests. */
  function MessageReply(w: World, cfg: Config, r: Request): Paging.Reply<Message>
    requires r.SearchMessages?
  {
    Paging.Respond(MessageSearch(w, cfg, r.query), Paging.Request(r.limit, r.deadline), r.token, [])
  }

  function ThreadReply(w: World, cfg: Config, r: Request): Paging.Reply<ThreadSummary>
    requires r.SearchThreads?
  {
    Paging.Respond(ThreadSearch(w, cfg, r.query), Paging.Request(r.limit, r.deadline), r.token, [])
  }

  /** In these calls the metadata of `id` was asked for, and `m` was the answer. */
  ghost predicate Answered(calls: seq<Handlers.Call>, id: string, m: Message) {
    exists t :: 0 <= t < |calls| && calls[t] == Metadata(id, Ok(m))
  }

  /** The items of the search are metadata answers of this request that are permitted. */
  ghost predicate ItemsAnswered(cfg: Config, calls: seq<Handlers.Call>, ids: seq<string>, items: seq<Message>) {
    |items| == |ids| && forall i :: 0 <= i < |ids| ==> Answered(calls, ids[i], items[i]) && Permitted(cfg, items[i])
  }

  lemma MessagesAnswered(w: World, cfg: Config, r: Request)
    requires r.SearchMessages? && MessageReply(w, cfg, r).Answer?
    ensures var a := MessageReply(w, cfg, r); ItemsAnswered(cfg, MessageCalls(w, a.log), a.ids, a.items)
  {
    hide Text.Trim, Allows, Permitted, Paging.Respond;
    var x, q := MessageSearch(w, cfg, r.query), Paging.Request(r.limit, r.deadline);
    var a := MessageReply(w, cfg, r);
    Paging.AnswerPasses(x, q, r.token);
    var calls := MessageCalls(w, a.log);
    forall i | 0 <= i < |a.ids| ensures Answered(calls, a.ids[i], a.items[i]) && Permitted(cfg, a.items[i]) {
      assert SearchSafety.Passed(a.log, a.ids[i], a.items[i]);
      var t :| 0 <= t < |a.log| && a.log[t] == Search.Checked(a.ids[i], Search.Visible(a.items[i]));
      assert SearchSafety.AnsweredBy(x.g, t, a.log[t]);
      assert CheckMessage(w, cfg, t, a.ids[i]) == Search.Visible(a.items[i]);
      PermittedExactly(cfg, a.items[i]);
      assert calls[t] == Metadata(a.ids[i], Ok(a.items[i]));
    }
  }

  /** A message search answers what its search gave: its error, or the metadata that
      the request was answered for the ids, as summaries or each fetched in full, and
      the next page. Without scope it answers an empty page. */
  lemma SearchMessagesAnswers(w: World, cfg: Config, r: Request)
    requires r.SearchMessages?
    ensures var (response, calls) := Handle(w, cfg, r);
            var detail := r.includeBody || r.includeAttachments;
            if !Scope(cfg) then (response, calls) == (if detail then DetailsResult([], "") else MessagesResult([], ""), [])
            else
              match MessageReply(w, cfg, r)
              case Error(code, _) => response == Error(code)
              case Answer(ids, items, next, log) =>
                && ItemsAnswered(cfg, calls, ids, items)
                && (!detail ==>
                      && response.MessagesResult? && response.nextPage == next && |response.summaries| == |items|
                      && forall i :: 0 <= i < |items| ==> ShowsMessage(cfg, response.summaries[i], items[i]))
                && (detail ==>
                      (response.DetailsResult? && response.nextPage == next
                       && Fetches(w, cfg, items, |log|, r.includeBody, Ok(response.details)))
                      || (response.Error? && Fetches(w, cfg, items, |log|, r.includeBody, Err(Search.Fault(response.code)))))
  {
    hide Allows, Permitted, FetchDetails, Fetches, Summarise, ShowsMessage, Paging.Respond, Answered, MessageSearch;
    var reply := MessageReply(w, cfg, r);
    if reply.Answer? {
      MessagesAnswered(w, cfg, r);
      var calls := MessageCalls(w, reply.log);
      forall i | 0 <= i < |reply.items| ensures ShowsMessage(cfg, Summaries(cfg, reply.items)[i], reply.items[i]) {
        SummaryShows(cfg, reply.items[i]);
      }
      DetailsFetched(w, cfg, reply.items, r.includeBody, calls);
      MoreCalls(w, cfg, reply.items, r.includeBody, calls);
      ItemsStayAnswered(cfg, calls, FetchDetails(w, cfg, reply.items, r.includeBody, calls).1, reply.ids, reply.items);
    }
  }

  lemma {:induction false} MoreCalls(w: World, cfg: Config, metas: seq<Message>, includeBody: bool, calls: seq<Handlers.Call>)
    ensures calls <= FetchDetails(w, cfg, metas, includeBody, calls).1
    decreases |metas|
  {
    hide Detailed;
    if metas != [] { MoreCalls(w, cfg, metas[1..], includeBody, calls + [Full(metas[0].id)]); }
  }

  lemma ItemsStayAnswered(cfg: Config, calls: seq<Handlers.Call>, more: seq<Handlers.Call>, ids: seq<string>, items: seq<Message>)
    requires ItemsAnswered(cfg, calls, ids, items) && calls <= more
    ensures ItemsAnswered(cfg, more, ids, items)
  {
    hide Permitted;
    forall i | 0 <= i < |ids| ensures Answered(more, ids[i], items[i]) {
      assert Answered(calls, ids[i], items[i]);
      var t :| 0 <= t < |calls| && calls[t] == Metadata(ids[i], Ok(items[i]));
      assert more[t] == calls[t];
    }
  }

  /** A page token that a search answers is refused by the other kind of search, and
      by the same kind for another query. */
  lemma OtherSearchRefuses(w: World, v: World, cfg: Config, r: Request, other: Request)
    requires Scope(cfg) && (r.SearchMessages? || r.SearchThreads?) && (other.SearchMessages? || other.SearchThreads?)
    requires r.SearchMessages? != other.SearchMessages? || r.query != other.query
    ensures var response := Handle(w, cfg, r).0;
            !response.Error? && NextPage(response) != "" && other.token == NextPage(response) ==>
              Handle(v, cfg, other).0 == Error("invalid_params")
  {
    hide Handle, Paging.Respond, Scope, ItemsAnswered, ShowsMessage, Fetches, ThreadAnswered, Cursor.DecodeToken, MessageSearch, ThreadSearch;
    var response := Handle(w, cfg, r).0;
    if !response.Error? && NextPage(response) != "" && other.token == NextPage(response) {
      SearchKinds(w, cfg, r.query);
      SearchKinds(v, cfg, other.query);
      if r.SearchMessages? {
        SearchMessagesAnswers(w, cfg, r);
        var c := Paging.NextCursor(MessageSearch(w, cfg, r.query), Paging.Request(r.limit, r.deadline), r.token);
        Cursor.TokenRoundTrip(c, if other.SearchMessages? then "messages" else "threads", other.query);
      } else {
        SearchThreadsAnswers(w, cfg, r);
        var c := Paging.NextCursor(ThreadSearch(w, cfg, r.query), Paging.Request(r.limit, r.deadline), r.token);
        Cursor.TokenRoundTrip(c, if other.SearchMessages? then "messages" else "threads", other.query);
      }
      if other.SearchMessages? {
        Paging.RejectedAnswer(MessageSearch(v, cfg, other.query), Paging.Request(other.limit, other.deadline), other.token);
        SearchMessagesAnswers(v, cfg, other);
      } else {
        Paging.RejectedAnswer(ThreadSearch(v, cfg, other.query), Paging.Request(other.limit, other.deadline), other.token);
        SearchThreadsAnswers(v, cfg, other);
      }
    }
  }

  function NextPage(a: Response): string {
    match a
    case MessagesResult(_, nextPage) => nextPage
    case DetailsResult(_, nextPage) => nextPage
    case ThreadsResult(_, nextPage) => nextPage
    case _ => ""
  }

  lemma SearchKinds(w: World, cfg: Config, query: string)
    ensures MessageSearch(w, cfg, query).kind == "messages" && MessageSearch(w, cfg, query).query == query
    ensures ThreadSearch(w, cfg, query).kind == "threads" && ThreadSearch(w, cfg, query).query == query
  {}

  // ---- search_threads ------------------------------------------------------------------------

  /** Some address header of the message holds the address. */
  ghost predicate Mentions(cfg: Config, m: Message, a: string) {
    a != "" && exists v :: (v == Sender(cfg, m) || v in HeaderEmails(cfg, m, "To") || v in HeaderEmails(cfg, m, "Cc") || v in HeaderEmails(cfg, m, "Bcc"))
                           && Trim(v) == a
  }

  /** The summary of a thread with this id and these visible messages: its id or, if
      that is blank, the thread id of the first; whom they mention; how many they are;
      and subject, snippet and date of the first with the latest date. */
  ghost predicate ShowsThread(cfg: Config, s: ThreadSummary, name: string, visible: seq<Message>) {
    && visible != []
    && s.threadId == (if Trim(name) != "" then Trim(name) else Trim(visible[0].threadId)) && s.threadId != ""
    && s.count == |visible|
    && (forall a :: a in s.participants <==> exists m :: m in visible && Mentions(cfg, m, a))
    && exists k: nat :: IsLatest(cfg, visible, k)
                   && s.subject == Trim(ReadHeader(visible[k], "Subject")) && s.snippet == Trim(visible[k].snippet)
                   && Dates(cfg, s.lastMessageAt, visible[k])
  }

  ghost predicate HasDate(cfg: Config, m: Message, stamp: string) {
    Dates(cfg, stamp, m)
  }

  /** No message has a later date than message `k`, and none before it the same. */
  ghost predicate IsLatest(cfg: Config, visible: seq<Message>, k: nat) {
    k < |visible| &&
    forall i, a, b :: 0 <= i < |visible| && HasDate(cfg, visible[k], a) && HasDate(cfg, visible[i], b) ==>
      !Less(a, b) && (i < k ==> Less(b, a))
  }

  lemma StampDates(cfg: Config, m: Message)
    ensures forall stamp :: Dates(cfg, stamp, m) <==> stamp == ReceivedAt(cfg, m)
  {
    hide Text.Trim, HeaderValue, ReadHeader, HeadersOf, Rfc3339.Stamp;
    HeaderRead(m, "Date");
  }

  lemma MentionedExactly(cfg: Config, m: Message, a: string)
    ensures a in Addresses(PartsOf(cfg, m)) <==> Mentions(cfg, m, a)
  {
    hide Text.Trim, ReadHeader, PartsOf;
    PartsMean(cfg, m);
    var all := [Sender(cfg, m)] + HeaderEmails(cfg, m, "To") + HeaderEmails(cfg, m, "Cc") + HeaderEmails(cfg, m, "Bcc");
    assert forall v :: v in all <==>
      v == Sender(cfg, m) || v in HeaderEmails(cfg, m, "To") || v in HeaderEmails(cfg, m, "Cc") || v in HeaderEmails(cfg, m, "Bcc");
  }

  lemma {:induction false} AllMentioned(cfg: Config, messages: seq<Message>, a: string)
    ensures a in AllAddresses(cfg, messages) <==> exists m :: m in messages && Mentions(cfg, m, a)
  {
    hide Addresses, PartsOf, Mentions;
    if messages != [] {
      MentionedExactly(cfg, messages[0], a);
      AllMentioned(cfg, messages[1..], a);
      assert forall m :: m in messages <==> m == messages[0] || m in messages[1..];
    }
  }

  lemma LatestByStamp(cfg: Config, visible: seq<Message>)
    requires visible != []
    ensures Newest.ByStamp(AllDated(cfg, visible)).Some?
    ensures IsLatest(cfg, visible, Newest.ByStamp(AllDated(cfg, visible)).value)
  {
    hide Text.Less, Newest.ByStamp, Newest.ReceivedAt, Dates, HeaderValue, Text.Trim;
    var dated := AllDated(cfg, visible);
    Newest.ByStampIsFirst(dated);
    assert dated[0] == Handlers.Dated(cfg, visible[0]) && dated[0].Message?;
    var k := Newest.ByStamp(dated).value;
    forall i, a, b | 0 <= i < |visible| && HasDate(cfg, visible[k], a) && HasDate(cfg, visible[i], b)
      ensures !Less(a, b) && (i < k ==> Less(b, a))
    {
      StampDates(cfg, visible[k]);
      StampDates(cfg, visible[i]);
      assert dated[i] == Handlers.Dated(cfg, visible[i]) && dated[k] == Handlers.Dated(cfg, visible[k]);
    }
  }

  /** When a thread can be summarised, and what the summary shows. */
  lemma ThreadShows(cfg: Config, name: string, visible: seq<Message>)
    ensures var s := SummariseThread(cfg, name, visible);
            && (s.Some? <==> visible != [] && (Trim(name) != "" || Trim(visible[0].threadId) != ""))
            && (s.Some? ==> ShowsThread(cfg, s.value, name, visible))
  {
    hide Text.Trim, AllAddresses, Newest.ByStamp, AllDated, ReceivedAt, SubjectOf, Mentions, Dates, ReadHeader, IsLatest;
    if visible != [] {
      LatestByStamp(cfg, visible);
      var k := Newest.ByStamp(AllDated(cfg, visible)).value;
      StampDates(cfg, visible[k]);
      SubjectRead(visible[k]);
      var s := SummariseThread(cfg, name, visible);
      if s.Some? {
        forall a ensures a in s.value.participants <==> exists m :: m in visible && Mentions(cfg, m, a) {
          AllMentioned(cfg, visible, a);
        }
      }
    }
  }

  lemma SubjectRead(m: Message)
    ensures SubjectOf(m) == Trim(ReadHeader(m, "Subject"))
  {
    HeaderRead(m, "Subject");
  }

  /** What a thread answer is to a search: hidden without a permitted message, an
      internal error if it has no id at all, and otherwise shown. */
  lemma ThreadSummaryMeans(w: World, cfg: Config, n: nat, id: string) returns (visible: seq<Message>)
    ensures var verdict := CheckThread(w, cfg, n, id);
            match w.threadMetadata(n, id)
            case Err(fault) => verdict == Search.CheckFault(fault)
            case Ok(thread) =>
              && Selects(cfg, thread.messages, visible)
              && (visible == [] ==> verdict == Search.Hidden)
              && (visible != [] && Trim(thread.id) == "" && Trim(visible[0].threadId) == "" ==>
                    verdict == Search.CheckFault(Search.Fault("internal_error")))
              && (visible != [] && (Trim(thread.id) != "" || Trim(visible[0].threadId) != "") ==>
                    verdict.Visible? && ShowsThread(cfg, verdict.item, thread.id, visible))
  {
    hide Text.Trim, VisibleMessages, Selects, SummariseThread, ShowsThread;
    visible := [];
    if w.threadMetadata(n, id).Ok? {
      var thread := w.threadMetadata(n, id).value;
      visible := VisibleMessages(cfg, thread.messages);
      VisibleSelects(cfg, thread.messages);
      ThreadShows(cfg, thread.id, visible);
    }
  }

  /** In these calls the thread was asked for, and the summary shows the answer. */
  ghost predicate ThreadAnswered(cfg: Config, calls: seq<Handlers.Call>, id: string, s: ThreadSummary) {
    exists t, visible :: 0 <= t < |calls| && ThreadAnswer(cfg, calls[t], id, s, visible)
  }

  ghost predicate ThreadAnswer(cfg: Config, call: Handlers.Call, id: string, s: ThreadSummary, visible: seq<Message>) {
    && call.ThreadMetadata? && call.asked == id && call.thread.Ok?
    && Selects(cfg, call.thread.value.messages, visible) && ShowsThread(cfg, s, call.thread.value.id, visible)
  }

  /** A thread search answers what its search gave: its error, or summaries of the
      threads that the request was answered for the ids, and the next page. */
  lemma SearchThreadsAnswers(w: World, cfg: Config, r: Request)
    requires r.SearchThreads?
    ensures var (response, calls) := Handle(w, cfg, r);
            if !Scope(cfg) then (response, calls) == (ThreadsResult([], ""), [])
            else
              match ThreadReply(w, cfg, r)
              case Error(code, _) => response == Error(code)
              case Answer(ids, items, next, _) =>
                && response == ThreadsResult(items, next) && |items| == |ids|
                && forall i :: 0 <= i < |ids| ==> ThreadAnswered(cfg, calls, ids[i], items[i])
  {
    hide Text.Trim, Paging.Respond, CheckThread, ThreadAnswer;
    var x, q := ThreadSearch(w, cfg, r.query), Paging.Request(r.limit, r.deadline);
    var a := ThreadReply(w, cfg, r);
    if a.Answer? {
      Paging.AnswerPasses(x, q, r.token);
      var calls := ThreadCalls(w, a.log);
      forall i | 0 <= i < |a.ids| ensures ThreadAnswered(cfg, calls, a.ids[i], a.items[i]) {
        assert SearchSafety.Passed(a.log, a.ids[i], a.items[i]);
        var t :| 0 <= t < |a.log| && a.log[t] == Search.Checked(a.ids[i], Search.Visible(a.items[i]));
        assert SearchSafety.AnsweredBy(x.g, t, a.log[t]);
        var visible := ThreadIsAnswer(w, cfg, t, a.ids[i], a.items[i]);
        assert calls[t] == ThreadMetadata(a.ids[i], w.threadMetadata(t, a.ids[i]));
        assert ThreadAnswer(cfg, calls[t], a.ids[i], a.items[i], visible);
      }
    }
  }

  lemma ThreadIsAnswer(w: World, cfg: Config, t: nat, id: string, s: ThreadSummary) returns (visible: seq<Message>)
    requires CheckThread(w, cfg, t, id) == Search.Visible(s)
    ensures ThreadAnswer(cfg, ThreadMetadata(id, w.threadMetadata(t, id)), id, s, visible)
  {
    hide Text.Trim, CheckThread, Selects, ShowsThread;
    visible := ThreadSummaryMeans(w, cfg, t, id);
  }

  // ---- get_attachment ------------------------------------------------------------------------

  /** The id of a downloadable part. */
  ghost predicate HasId(part: Part, q: seq<nat>, id: string) {
    && Downloadable(part)
    && id == (if Trim(part.body.attachmentId) == "" then "sg-inline:" else "sg-part:") + (if q == [] then "root" else JoinPath(q))
  }

  /** The content of a part: its own data or, if Gmail keeps it apart, the answer to a
      call for it. */
  ghost predicate DeliversContent(w: World, r: Request, cap: nat, part: Part, q: seq<nat>, response: Response)
    requires r.GetAttachment? && part.Part? && part.body.Body?
  {
    if Trim(part.body.attachmentId) == "" then
      match Base64.DecodeData(part.body.data)
      case None => response == Error("internal_error")
      case Some(data) => DeliversData(r, cap, part, q, data, response)
    else
      match w.attachment(2, r.messageID, Trim(part.body.attachmentId))
      case Err(fault) => response == Error(fault.code)
      case Ok(data) => DeliversData(r, cap, part, q, data, response)
  }

  /** Within the cap and the client's frame the data is delivered. */
  ghost predicate DeliversData(r: Request, cap: nat, part: Part, q: seq<nat>, data: seq<Byte>, response: Response)
    requires r.GetAttachment?
  {
    exists meta :: Describes(meta, part, q) &&
      response == if |data| > cap || AttachmentSize.TooLarge(r.requestID, meta, data) then Error("too_large")
                  else AttachmentResult(meta, data)
  }

  /** The part at the address with the id, if it is within the cap; no part has the id
      where this one does not. */
  ghost predicate DeliversPart(w: World, r: Request, cap: nat, root: Part, q: seq<nat>, response: Response)
    requires r.GetAttachment?
  {
    var part := PartAt(root, q);
    if !HasId(part, q, Trim(r.attachmentID)) then
      response == Error("not_found") && forall p :: !HasId(PartAt(root, p), p, Trim(r.attachmentID))
    else if part.body.size > cap then response == Error("too_large")
    else DeliversContent(w, r, cap, part, q, response)
  }

  /** A get_attachment answers the content of the part with the id, if the message is
      permitted, there is one, and it is small enough. */
  lemma GetAttachmentAnswers(w: World, cfg: Config, r: Request) returns (q: seq<nat>)
    requires r.GetAttachment?
    ensures var response := Handle(w, cfg, r).0;
            var cap := if 1 <= cfg.maxAttachmentBytes <= 24117248 then cfg.maxAttachmentBytes else 24117248;
            match w.metadata(0, r.messageID)
            case Err(fault) => response == Error(fault.code)
            case Ok(meta) =>
              if !Permitted(cfg, meta) then response == Error("policy_denied")
              else
                match w.full(1, r.messageID)
                case Err(fault) => response == Error(fault.code)
                case Ok(m) => DeliversPart(w, r, cap, m.payload, q, response)
  {
    hide Text.Trim, Allows, Permitted, Downloadable, IsAttachmentPart, Collect, PartAt, JoinPath, Describes, RefOf,
      Base64.DecodeData, AttachmentSize.TooLarge;
    q := [];
    var meta, full := w.metadata(0, r.messageID), w.full(1, r.messageID);
    if meta.Ok? {
      PermittedExactly(cfg, meta.value);
      if full.Ok? && Allows(cfg, meta.value) {
        var root := full.value.payload;
        if Find(root, r.attachmentID).Some? {
          q := FoundIsAddress(root, r.attachmentID);
          PartDelivered(w, cfg, r, root, q);
        } else {
          forall p ensures !HasId(PartAt(root, p), p, Trim(r.attachmentID)) { NotFoundHasNoId(root, p, r.attachmentID); }
        }
      }
    }
  }

  lemma NotFoundHasNoId(root: Part, p: seq<nat>, id: string)
    requires Find(root, id).None?
    ensures !HasId(PartAt(root, p), p, Trim(id))
  {
    hide Text.Trim, Downloadable, IsAttachmentPart, Collect, PartAt, JoinPath, RefOf;
    DownloadableExactly(PartAt(root, p));
    if HasId(PartAt(root, p), p, Trim(id)) {
      FindIsNavigation(root, PrefixOf(PartAt(root, p)), p);
      TrimTwice(id);
    }
  }

  /** The found part: its id, and the answer. */
  lemma PartDelivered(w: World, cfg: Config, r: Request, root: Part, q: seq<nat>)
    requires r.GetAttachment? && IsAttachmentPart(PartAt(root, q))
    requires Find(root, r.attachmentID) == Some(RefOf(PartAt(root, q), q))
    requires Trim(r.attachmentID) == AttachmentID(PrefixOf(PartAt(root, q)), q)
    requires w.metadata(0, r.messageID).Ok? && Allows(cfg, w.metadata(0, r.messageID).value)
    requires w.full(1, r.messageID).Ok? && w.full(1, r.messageID).value.payload == root
    ensures var part := PartAt(root, q);
            var cap := AttachmentSize.MaxAttachmentBytes(cfg.maxAttachmentBytes);
            && HasId(part, q, Trim(r.attachmentID))
            && if part.body.size > cap then HandleGetAttachment(w, cfg, r).0 == Error("too_large")
               else DeliversContent(w, r, cap, part, q, HandleGetAttachment(w, cfg, r).0)
  {
    hide Text.Trim, Allows, Downloadable, IsAttachmentPart, Collect, Find, PartAt, JoinPath, Describes, Base64.DecodeData, AttachmentSize.TooLarge;
    var part := PartAt(root, q);
    DownloadableExactly(part);
    RefDescribes(part, q);
    RefKind(part, q);
  }

  /** A reference has either the part's data or its token. */
  lemma RefKind(part: Part, q: seq<nat>)
    requires IsAttachmentPart(part)
    ensures var ref := RefOf(part, q);
            && ref.meta.size == part.body.size
            && (ref.IsInline() <==> Trim(part.body.attachmentId) == "")
            && (ref.IsInline() ==> Base64.DecodeData(ref.inlineData) == Base64.DecodeData(part.body.data))
            && (!ref.IsInline() ==> ref.GmailID() == Trim(part.body.attachmentId))
  {
    hide Text.Trim, HeaderValue;
    TrimTwice(part.body.attachmentId);
    TrimTwice(part.body.data);
    TrimEmpty();
  }
}
