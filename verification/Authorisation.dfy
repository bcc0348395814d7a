/** What the policy guarantees over all requests (internal/broker/server.go): content
    is fetched only after authorisation, and a response does not depend on the
    content of what the policy hides. It does depend on Gmail's listings and on
    whether a hidden message or thread exists: an id that a search has not yet
    checked travels in the page token, visible or not, a listed hidden id can keep
    a search from ending, and a hidden id is denied where a missing one is not found. */
module Authorisation {
  import opened Text
  import opened Handlers
  import Search
  import SearchSafety
  import Paging
  import Cursor
  import Newest
  import DraftMessage
  import Base64
  import Attachments
  import AttachmentSize

  // ---- authorise before fetch ------------------------------------------------------------

  /** The call showed that the policy allows the message `id`: it asked for that
      id or was answered with it. */
  ghost predicate Clears(cfg: Config, call: Call, id: string) {
    || (call.Metadata? && call.reply.Ok? && Allows(cfg, call.reply.value)
        && (call.asked == id || call.reply.value.id == id))
    || (call.ThreadMetadata? && call.thread.Ok?
        && exists m :: m in call.thread.value.messages && Allows(cfg, m) && m.id == id)
  }

  /** The call answered with this very message, and the policy allows it. */
  ghost predicate ClearsMessage(cfg: Config, call: Call, msg: Message) {
    Allows(cfg, msg) &&
    ((call.Metadata? && call.reply == Ok(msg)) ||
     (call.ThreadMetadata? && call.thread.Ok? && msg in call.thread.value.messages))
  }

  ghost predicate Cleared(cfg: Config, calls: seq<Call>, n: nat, id: string) {
    exists j :: 0 <= j < n && j < |calls| && Clears(cfg, calls[j], id)
  }

  ghost predicate AnchorCleared(cfg: Config, calls: seq<Call>, n: nat, msg: Message) {
    exists j :: 0 <= j < n && j < |calls| && ClearsMessage(cfg, calls[j], msg)
  }

  /** Call `i` is allowed by the calls before it. */
  ghost predicate Justified(cfg: Config, calls: seq<Call>, i: nat)
    requires i < |calls|
  {
    var call := calls[i];
    && (call.Full? ==> Cleared(cfg, calls, i, call.asked))
    && (call.Attachment? ==> Cleared(cfg, calls, i, call.asked))
    && (call.CreateReply? ==> AnchorCleared(cfg, calls, i, call.anchor))
  }

  ghost predicate Safe(cfg: Config, calls: seq<Call>) {
    forall i :: 0 <= i < |calls| ==> Justified(cfg, calls, i)
  }

  lemma SafeAppend(cfg: Config, calls: seq<Call>, call: Call)
    requires Safe(cfg, calls)
    requires call.Full? || call.Attachment? ==> Cleared(cfg, calls, |calls|, call.asked)
    requires call.CreateReply? ==> AnchorCleared(cfg, calls, |calls|, call.anchor)
    ensures Safe(cfg, calls + [call])
    ensures forall id :: Cleared(cfg, calls, |calls|, id) ==> Cleared(cfg, calls + [call], |calls| + 1, id)
  {
    hide Clears, ClearsMessage;
    var more := calls + [call];
    forall n: nat, id | n <= |calls| && Cleared(cfg, calls, n, id) ensures Cleared(cfg, more, n, id) && Cleared(cfg, more, |more|, id) {
      var j :| 0 <= j < n && j < |calls| && Clears(cfg, calls[j], id);
      assert more[j] == calls[j];
    }
    forall n: nat, msg | n <= |calls| && AnchorCleared(cfg, calls, n, msg) ensures AnchorCleared(cfg, more, n, msg) {
      var j :| 0 <= j < n && j < |calls| && ClearsMessage(cfg, calls[j], msg);
      assert more[j] == calls[j];
    }
    forall i | 0 <= i < |more| ensures Justified(cfg, more, i) {
      if i < |calls| { assert more[i] == calls[i] && Justified(cfg, calls, i); }
    }
  }

  lemma {:induction false} FetchSafe(w: World, cfg: Config, metas: seq<Message>, includeBody: bool, calls: seq<Call>)
    requires Safe(cfg, calls)
    requires forall i :: 0 <= i < |metas| ==> Cleared(cfg, calls, |calls|, metas[i].id)
    ensures Safe(cfg, FetchDetails(w, cfg, metas, includeBody, calls).1)
    decreases |metas|
  {
    hide Cleared, Safe, Detailed;
    if metas != [] {
      assert Cleared(cfg, calls, |calls|, metas[0].id);
      SafeAppend(cfg, calls, Full(metas[0].id));
      FetchSafe(w, cfg, metas[1..], includeBody, calls + [Full(metas[0].id)]);
    }
  }

  lemma {:induction false} VisibleAreAllowed(cfg: Config, messages: seq<Message>)
    ensures forall m :: m in VisibleMessages(cfg, messages) <==> m in messages && Allows(cfg, m)
  {
    hide Allows;
    if messages != [] {
      VisibleAreAllowed(cfg, messages[1..]);
      assert forall m :: m in messages <==> m == messages[0] || m in messages[1..];
    }
  }

  lemma SearchItemsCleared(w: World, cfg: Config, r: Request)
    requires r.SearchMessages?
    ensures var a := Paging.Respond(MessageSearch(w, cfg, r.query), Paging.Request(r.limit, r.deadline), r.token, []);
            a.Answer? ==> forall i :: 0 <= i < |a.items| ==>
              Cleared(cfg, MessageCalls(w, a.log), |a.log|, a.items[i].id)
  {
    hide Text.Trim, Allows, Paging.Respond;
    var x := MessageSearch(w, cfg, r.query);
    var q := Paging.Request(r.limit, r.deadline);
    var a := Paging.Respond(x, q, r.token, []);
    if a.Answer? {
      Paging.AnswerPasses(x, q, r.token);
      var calls := MessageCalls(w, a.log);
      forall i | 0 <= i < |a.items| ensures Cleared(cfg, calls, |a.log|, a.items[i].id) {
        assert SearchSafety.Passed(a.log, a.ids[i], a.items[i]);
        var t :| 0 <= t < |a.log| && a.log[t] == Search.Checked(a.ids[i], Search.Visible(a.items[i]));
        assert SearchSafety.AnsweredBy(x.g, t, a.log[t]);
        assert CheckMessage(w, cfg, t, a.log[t].id) == Search.Visible(a.items[i]);
        assert Clears(cfg, calls[t], a.items[i].id);
      }
    }
  }

  /** Authorise before fetch: in every request, each full-message fetch, attachment
      download and reply draft follows, in the same request, a metadata fetch
      that the policy allows. */
  lemma AuthoriseBeforeFetch(w: World, cfg: Config, r: Request)
    ensures Safe(cfg, Handle(w, cfg, r).1)
  {
    match r
    case GetMessage(_, _) => SafeGetMessage(w, cfg, r);
    case SearchMessages(_, _, _, _, _, _) => SafeSearchMessages(w, cfg, r);
    case SearchThreads(_, _, _, _) =>
    case GetThread(_, _) => SafeGetThread(w, cfg, r);
    case GetAttachment(_, _, _) => SafeGetAttachment(w, cfg, r);
    case CreateDraft(_, _, _, _, _, _, _, _) => SafeCreateDraft(w, cfg, r);
  }

  lemma SafeGetMessage(w: World, cfg: Config, r: Request)
    requires r.GetMessage?
    ensures Safe(cfg, HandleGetMessage(w, cfg, r).1)
  {
    hide Allows, Detailed;
    var meta := w.metadata(0, r.messageID);
    var calls := [Metadata(r.messageID, meta)];
    if meta.Ok? && Allows(cfg, meta.value) {
      assert Clears(cfg, calls[0], r.messageID);
      SafeAppend(cfg, calls, Full(r.messageID));
    }
  }

  lemma SafeSearchMessages(w: World, cfg: Config, r: Request)
    requires r.SearchMessages?
    ensures Safe(cfg, HandleSearchMessages(w, cfg, r).1)
  {
    hide Paging.Respond, Cleared, FetchDetails, Summaries;
    SearchItemsCleared(w, cfg, r);
    var a := Paging.Respond(MessageSearch(w, cfg, r.query), Paging.Request(r.limit, r.deadline), r.token, []);
    var calls := MessageCalls(w, a.log);
    assert Safe(cfg, calls);
    if a.Answer? {
      FetchSafe(w, cfg, a.items, r.includeBody, calls);
    }
  }

  lemma SafeGetThread(w: World, cfg: Config, r: Request)
    requires r.GetThread?
    ensures Safe(cfg, HandleGetThread(w, cfg, r).1)
  {
    hide Allows, FetchDetails, VisibleMessages, Summaries;
    var thread := w.threadMetadata(0, r.threadID);
    var calls := [ThreadMetadata(r.threadID, thread)];
    if thread.Ok? {
      var visible := VisibleMessages(cfg, thread.value.messages);
      VisibleAreAllowed(cfg, thread.value.messages);
      forall i | 0 <= i < |visible| ensures Cleared(cfg, calls, 1, visible[i].id) {
        assert visible[i] in visible;
        assert Clears(cfg, calls[0], visible[i].id);
      }
      FetchSafe(w, cfg, visible, true, calls);
    }
  }

  lemma SafeGetAttachment(w: World, cfg: Config, r: Request)
    requires r.GetAttachment?
    ensures Safe(cfg, HandleGetAttachment(w, cfg, r).1)
  {
    hide Allows, Text.Trim, Attachments.Find, Base64.DecodeData, AttachmentResponse;
    var meta := w.metadata(0, r.messageID);
    var calls := [Metadata(r.messageID, meta)];
    if meta.Ok? && Allows(cfg, meta.value) {
      assert Clears(cfg, calls[0], r.messageID);
      assert Cleared(cfg, calls, 1, r.messageID);
      SafeAppend(cfg, calls, Full(r.messageID));
      var full := w.full(1, r.messageID);
      if full.Ok? {
        var found := Attachments.Find(full.value.payload, r.attachmentID);
        if found.Some? {
          SafeAppend(cfg, calls + [Full(r.messageID)], Attachment(r.messageID, found.value.GmailID()));
        }
      }
    }
  }

  lemma SafeCreateDraft(w: World, cfg: Config, r: Request)
    requires r.CreateDraft?
    ensures Safe(cfg, HandleCreateDraft(w, cfg, r).1)
  {
    hide Allows, Text.Trim, VisibleMessages, ReplyInput, GivenMail, DraftMessage.RawDraft, AllDated, Newest.ByDate;
    var messageID, threadID := Trim(r.replyToMessage), Trim(r.replyToThread);
    var (anchor, calls) := ReplyAnchor(w, cfg, messageID, threadID);
    assert Safe(cfg, calls);
    if anchor.Ok? {
      AnchorIsCleared(w, cfg, messageID, threadID);
      assert AnchorCleared(cfg, calls, 1, anchor.value);
    }
    forall raw, thread ensures anchor.Ok? ==> Safe(cfg, calls + [CreateReply(anchor.value, raw, thread)])
                       ensures Safe(cfg, [] + [CreateNew(raw)])
    {
      if anchor.Ok? { SafeAppend(cfg, calls, CreateReply(anchor.value, raw, thread)); }
      SafeAppend(cfg, [], CreateNew(raw));
    }
  }

  /** The answered message is one that the only call before has shown. */
  lemma AnchorIsCleared(w: World, cfg: Config, messageID: string, threadID: string)
    requires ReplyAnchor(w, cfg, messageID, threadID).0.Ok?
    ensures var (anchor, calls) := ReplyAnchor(w, cfg, messageID, threadID);
            |calls| == 1 && ClearsMessage(cfg, calls[0], anchor.value)
  {
    hide Allows, Text.Trim, VisibleMessages, AllDated, Newest.ByDate;
    if messageID == "" {
      VisibleAreAllowed(cfg, w.threadMetadata(0, threadID).value.messages);
    }
  }

  // ---- responses depend only on what is visible ---------------------------------------------

  ghost predicate SameMessage(cfg: Config, a: Got<Message>, b: Got<Message>) {
    a == b || (a.Ok? && b.Ok? && !Allows(cfg, a.value) && !Allows(cfg, b.value))
  }

  ghost predicate SameThread(cfg: Config, a: Got<Thread>, b: Got<Thread>) {
    a == b || (a.Ok? && b.Ok? && a.value.id == b.value.id
               && VisibleMessages(cfg, a.value.messages) == VisibleMessages(cfg, b.value.messages))
  }

  /** Some metadata or thread answer of this Gmail shows that the policy allows `id`. */
  ghost predicate Shown(cfg: Config, w: World, id: string) {
    || (exists n: nat, asked: string :: Clears(cfg, Metadata(asked, w.metadata(n, asked)), id))
    || (exists n: nat, asked: string :: Clears(cfg, ThreadMetadata(asked, w.threadMetadata(n, asked)), id))
  }

  /** Two mailboxes with the same listings, messages and threads, that differ in any
      way in what the policy hides of them: in the metadata, the bodies and the
      attachments of hidden messages, and in which hidden messages a thread holds
      and where. What fails in one fails in the other. */
  ghost predicate SameView(cfg: Config, w: World, v: World) {
    && (forall n, b, t :: w.listMessages(n, b, t) == v.listMessages(n, b, t))
    && (forall n, b, t :: w.listThreads(n, b, t) == v.listThreads(n, b, t))
    && (forall n, id :: SameMessage(cfg, w.metadata(n, id), v.metadata(n, id)))
    && (forall n, id :: SameThread(cfg, w.threadMetadata(n, id), v.threadMetadata(n, id)))
    && (forall n, id :: Shown(cfg, w, id) ==> w.full(n, id) == v.full(n, id))
    && (forall n, id, t :: Shown(cfg, w, id) ==> w.attachment(n, id, t) == v.attachment(n, id, t))
    && (forall n, raw, threadID :: w.createDraft(n, raw, threadID) == v.createDraft(n, raw, threadID))
  }

  ghost predicate SameAnswers<T>(g: Search.Gmail<T>, h: Search.Gmail<T>) {
    && (forall n, b, t :: g.list(n, b, t) == h.list(n, b, t))
    && (forall n, id :: g.check(n, id) == h.check(n, id))
  }

  /** A search uses nothing of Gmail but its answers. */
  lemma {:induction false} ScanSame<T>(g: Search.Gmail<T>, h: Search.Gmail<T>, limit: nat, batch: nat, deadline: nat, s: Search.Loop<T>)
    requires SameAnswers(g, h)
    ensures Search.Scan(g, limit, batch, deadline, s) == Search.Scan(h, limit, batch, deadline, s)
    decreases Search.CallsLeft(deadline, s), |s.pending|
  {
    hide Text.Trim, Search.Extract, Search.Unique;
    if |s.found| < limit {
      var n := Search.Turn(g, batch, deadline, s);
      assert n == Search.Turn(h, batch, deadline, s);
      if n.Again? { ScanSame(g, h, limit, batch, deadline, n.state); }
    }
  }

  lemma RespondSame<T>(x: Paging.Context<T>, y: Paging.Context<T>, q: Paging.Request, raw: string)
    requires SameAnswers(x.g, y.g) && x.kind == y.kind && x.query == y.query && x.max == y.max
    ensures Paging.Respond(x, q, raw, []) == Paging.Respond(y, q, raw, [])
  {
    hide Cursor.DecodeToken, Cursor.EncodeToken, Search.Scan;
    if Cursor.DecodeToken(raw, x.kind, x.query).Accepted? {
      ScanSame(x.g, y.g, Paging.LimitOf(x, q), Paging.BatchOf(x, q), q.deadline, Paging.Opening(x, raw, []));
    }
  }

  lemma {:induction false} FetchSame(w: World, v: World, cfg: Config, metas: seq<Message>, includeBody: bool,
                                     calls: seq<Call>, calls': seq<Call>)
    requires SameView(cfg, w, v) && |calls| == |calls'|
    requires forall i :: 0 <= i < |metas| ==> Shown(cfg, w, metas[i].id)
    ensures FetchDetails(w, cfg, metas, includeBody, calls).0 == FetchDetails(v, cfg, metas, includeBody, calls').0
    decreases |metas|
  {
    hide SameMessage, SameThread, Detailed, Shown;
    if metas != [] {
      var call := [Full(metas[0].id)];
      assert Shown(cfg, w, metas[0].id);
      FetchSame(w, v, cfg, metas[1..], includeBody, calls + call, calls' + call);
    }
  }

  /** Non-interference: over two mailboxes with the same listings, messages and
      threads that differ only in the content of what the policy hides, every
      request gets the same response. */
  lemma ResponsesShowOnlyVisible(w: World, v: World, cfg: Config, r: Request)
    requires SameView(cfg, w, v)
    ensures Handle(w, cfg, r).0 == Handle(v, cfg, r).0
  {
    match r
    case GetMessage(_, _) => SameGetMessage(w, v, cfg, r);
    case SearchMessages(_, _, _, _, _, _) => SameSearchMessages(w, v, cfg, r);
    case SearchThreads(_, _, _, _) => SameSearchThreads(w, v, cfg, r);
    case GetThread(_, _) => SameGetThread(w, v, cfg, r);
    case GetAttachment(_, _, _) => SameGetAttachment(w, v, cfg, r);
    case CreateDraft(_, _, _, _, _, _, _, _) => SameCreateDraft(w, v, cfg, r);
  }

  lemma AskedIsShown(cfg: Config, w: World, id: string)
    ensures w.metadata(0, id).Ok? && Allows(cfg, w.metadata(0, id).value) ==> Shown(cfg, w, id)
  {
    hide Allows;
    if w.metadata(0, id).Ok? && Allows(cfg, w.metadata(0, id).value) {
      assert Clears(cfg, Metadata(id, w.metadata(0, id)), id);
    }
  }

  lemma SameGetMessage(w: World, v: World, cfg: Config, r: Request)
    requires SameView(cfg, w, v) && r.GetMessage?
    ensures HandleGetMessage(w, cfg, r).0 == HandleGetMessage(v, cfg, r).0
  {
    hide Allows, Detailed, SameThread, Shown;
    assert SameMessage(cfg, w.metadata(0, r.messageID), v.metadata(0, r.messageID));
    AskedIsShown(cfg, w, r.messageID);
  }

  lemma SameGetAttachment(w: World, v: World, cfg: Config, r: Request)
    requires SameView(cfg, w, v) && r.GetAttachment?
    ensures HandleGetAttachment(w, cfg, r).0 == HandleGetAttachment(v, cfg, r).0
  {
    hide Allows, SameThread, Shown, Text.Trim, Attachments.Find, Base64.DecodeData, AttachmentResponse, AttachmentSize.MaxAttachmentBytes;
    assert SameMessage(cfg, w.metadata(0, r.messageID), v.metadata(0, r.messageID));
    AskedIsShown(cfg, w, r.messageID);
  }

  lemma SameGetThread(w: World, v: World, cfg: Config, r: Request)
    requires SameView(cfg, w, v) && r.GetThread?
    ensures HandleGetThread(w, cfg, r).0 == HandleGetThread(v, cfg, r).0
  {
    hide Allows, SameMessage, VisibleMessages, FetchDetails, Summaries;
    var t, t' := w.threadMetadata(0, r.threadID), v.threadMetadata(0, r.threadID);
    assert SameThread(cfg, t, t');
    if t.Ok? {
      var visible := VisibleMessages(cfg, t.value.messages);
      VisibleAreAllowed(cfg, t.value.messages);
      forall i | 0 <= i < |visible| ensures Shown(cfg, w, visible[i].id) {
        assert visible[i] in visible;
        assert Clears(cfg, ThreadMetadata(r.threadID, w.threadMetadata(0, r.threadID)), visible[i].id);
      }
      FetchSame(w, v, cfg, visible, true,
                [ThreadMetadata(r.threadID, t)], [ThreadMetadata(r.threadID, t')]);
    }
  }

  lemma SameSearchMessages(w: World, v: World, cfg: Config, r: Request)
    requires SameView(cfg, w, v) && r.SearchMessages?
    ensures HandleSearchMessages(w, cfg, r).0 == HandleSearchMessages(v, cfg, r).0
  {
    hide Allows, SameThread, Paging.Respond, FetchDetails, Summaries;
    var x, y := MessageSearch(w, cfg, r.query), MessageSearch(v, cfg, r.query);
    forall n, id ensures x.g.check(n, id) == y.g.check(n, id) {
      assert SameMessage(cfg, w.metadata(n, id), v.metadata(n, id));
    }
    RespondSame(x, y, Paging.Request(r.limit, r.deadline), r.token);
    var a := Paging.Respond(x, Paging.Request(r.limit, r.deadline), r.token, []);
    if a.Answer? {
      SearchItemsCleared(w, cfg, r);
      var calls := MessageCalls(w, a.log);
      forall i | 0 <= i < |a.items| ensures Shown(cfg, w, a.items[i].id) {
        var j :| 0 <= j < |a.log| && j < |calls| && Clears(cfg, calls[j], a.items[i].id);
        assert Clears(cfg, Metadata(a.log[j].id, w.metadata(j, a.log[j].id)), a.items[i].id);
      }
      FetchSame(w, v, cfg, a.items, r.includeBody, MessageCalls(w, a.log), MessageCalls(v, a.log));
    }
  }

  lemma SameSearchThreads(w: World, v: World, cfg: Config, r: Request)
    requires SameView(cfg, w, v) && r.SearchThreads?
    ensures HandleSearchThreads(w, cfg, r).0 == HandleSearchThreads(v, cfg, r).0
  {
    hide Allows, SameMessage, VisibleMessages, Paging.Respond, SummariseThread;
    var x, y := ThreadSearch(w, cfg, r.query), ThreadSearch(v, cfg, r.query);
    forall n, id ensures x.g.check(n, id) == y.g.check(n, id) {
      assert SameThread(cfg, w.threadMetadata(n, id), v.threadMetadata(n, id));
    }
    RespondSame(x, y, Paging.Request(r.limit, r.deadline), r.token);
  }

  lemma SameCreateDraft(w: World, v: World, cfg: Config, r: Request)
    requires SameView(cfg, w, v) && r.CreateDraft?
    ensures HandleCreateDraft(w, cfg, r).0 == HandleCreateDraft(v, cfg, r).0
  {
    hide Allows, VisibleMessages, Text.Trim, ReplyInput, GivenMail, DraftMessage.RawDraft, AllDated, Newest.ByDate, Shown;
    var messageID, threadID := Trim(r.replyToMessage), Trim(r.replyToThread);
    assert SameMessage(cfg, w.metadata(0, messageID), v.metadata(0, messageID));
    assert SameThread(cfg, w.threadMetadata(0, threadID), v.threadMetadata(0, threadID));
    assert ReplyAnchor(w, cfg, messageID, threadID).0 == ReplyAnchor(v, cfg, messageID, threadID).0;
    assert |ReplyAnchor(w, cfg, messageID, threadID).1| == 1 && |ReplyAnchor(v, cfg, messageID, threadID).1| == 1;
  }

  // ---- the existence of what is hidden shows ------------------------------------------------

  const NOT_FOUND := Search.Fault("not_found")

  /** The same Gmail without the message. */
  function WithoutMessage(w: World, id: string): World {
    w.(metadata := (n: nat, asked: string) => if asked == id then Err(NOT_FOUND) else w.metadata(n, asked))
  }

  function WithoutThread(w: World, id: string): World {
    w.(threadMetadata := (n: nat, asked: string) => if asked == id then Err(NOT_FOUND) else w.threadMetadata(n, asked))
  }

  /** A request for a hidden message is denied; without the message it is not found. */
  lemma HiddenMessageExists(w: World, cfg: Config, r: Request)
    requires r.GetMessage? || r.GetAttachment?
    requires w.metadata(0, r.messageID).Ok? && !Allows(cfg, w.metadata(0, r.messageID).value)
    ensures Handle(w, cfg, r).0 == Error("policy_denied")
    ensures Handle(WithoutMessage(w, r.messageID), cfg, r).0 == Error("not_found")
  {
    hide Allows;
  }

  /** So is one for a thread with hidden messages only. */
  lemma HiddenThreadExists(w: World, cfg: Config, r: Request)
    requires r.GetThread?
    requires w.threadMetadata(0, r.threadID).Ok? && VisibleMessages(cfg, w.threadMetadata(0, r.threadID).value.messages) == []
    ensures Handle(w, cfg, r).0 == Error("policy_denied")
    ensures Handle(WithoutThread(w, r.threadID), cfg, r).0 == Error("not_found")
  {
    hide Allows, VisibleMessages;
  }
}
