/** Whole searches as a client sees them: runs of search requests to the broker
    (internal/broker/server.go), each with its own connection to Gmail. */
module SearchRuns {
  import opened Lists
  import opened Text
  import opened Handlers
  import Search
  import Cursor
  import opened SearchSafety
  import opened SearchReference
  import opened SearchComplete
  import opened Paging
  import opened Attachments
  import Authorisation
  import opened Answers

  // ---- requests that each count their calls from 0 ---------------------------------------

  /** Request `i` goes to Gmail `xs[i]`, and makes its first call there. Whatever the
      broker answers, the client may see an error instead. */
  ghost predicate Restarts<T>(xs: seq<Context<T>>, rs: seq<Paging.Request>, replies: seq<Reply<T>>, i: nat)
    requires i < |xs| == |rs| == |replies|
  {
    !Over(replies[..i]) && (replies[i].Error? || replies[i] == Respond(xs[i], rs[i], LastToken(replies[..i]), []))
  }

  ghost predicate SameSearch<T>(x: Context<T>, y: Context<T>) {
    x.kind == y.kind && x.query == y.query && x.max == y.max
  }

  ghost predicate IsRestartRun<T>(x: Context<T>, xs: seq<Context<T>>, rs: seq<Paging.Request>, replies: seq<Reply<T>>) {
    && |xs| == |rs| == |replies|
    && (forall i :: 0 <= i < |xs| ==> SameSearch(x, xs[i]))
    && (forall i :: 0 <= i < |xs| ==> Restarts(xs, rs, replies, i))
  }

  /** Gmail serves the mailbox, and what it shows for a listed visible id fits it. */
  ghost predicate ServesItems<T(!new)>(x: Context<T>, m: Mailbox, fits: (string, T) -> bool) {
    && Serves(x.g, m)
    && forall n, id :: ListsId(m.all, id) && x.g.check(n, id).Visible? ==> fits(id, x.g.check(n, id).item)
  }

  function AllItems<T>(replies: seq<Reply<T>>): seq<T> {
    if replies == [] then []
    else
      match replies[|replies| - 1]
      case Answer(_, items, _, _) => AllItems(replies[..|replies| - 1]) + items
      case Error(_, _) => AllItems(replies[..|replies| - 1])
  }

  /** Item by item, the items fit the ids. */
  ghost predicate Fitting<T>(fits: (string, T) -> bool, ids: seq<string>, items: seq<T>) {
    |items| == |ids| && forall i :: 0 <= i < |ids| ==> fits(ids[i], items[i])
  }

  lemma FittingConcat<T>(fits: (string, T) -> bool, a: seq<string>, x: seq<T>, b: seq<string>, y: seq<T>)
    requires Fitting(fits, a, x) && Fitting(fits, b, y)
    ensures Fitting(fits, a + b, x + y)
  {}

  /** Some visibility check of `id` gave `item`. */
  ghost predicate ShownBy<T(!new)>(g: Search.Gmail<T>, id: string, item: T) {
    exists n :: g.check(n, id) == Search.Visible(item)
  }

  lemma AnswerMatches<T(!new)>(x: Context<T>, r: Paging.Request, raw: string)
    requires Respond(x, r, raw, []).Answer?
    ensures var a := Respond(x, r, raw, []);
            |a.items| == |a.ids| && forall i :: 0 <= i < |a.ids| ==> ShownBy(x.g, a.ids[i], a.items[i])
  {
    hide Respond;
    var a := Respond(x, r, raw, []);
    AnswerPasses(x, r, raw);
    forall i | 0 <= i < |a.ids| ensures ShownBy(x.g, a.ids[i], a.items[i]) {
      assert Passed(a.log, a.ids[i], a.items[i]);
      var t :| 0 <= t < |a.log| && a.log[t] == Search.Checked(a.ids[i], Search.Visible(a.items[i]));
      assert AnsweredBy(x.g, t, a.log[t]);
    }
  }

  /** The items of an answer over a served mailbox. */
  lemma AnswerItems<T(!new)>(x: Context<T>, m: Mailbox, fits: (string, T) -> bool, r: Paging.Request, raw: string, before: seq<string>)
    requires ServesItems(x, m, fits) && Resumable(x, raw, before)
    requires Respond(x, r, raw, []).Answer? && before + Respond(x, r, raw, []).ids <= Expected(m.vis, m.all)
    ensures Fitting(fits, Respond(x, r, raw, []).ids, Respond(x, r, raw, []).items)
    ensures forall id :: id in Respond(x, r, raw, []).ids ==> id in Expected(m.vis, m.all)
  {
    hide Respond, Resumable, Expected, ListsId, Serves;
    var a := Respond(x, r, raw, []);
    AnswerMatches(x, r, raw);
    ExpectedIsFirstOccurrences(m.vis, m.all);
    forall i | 0 <= i < |a.ids| ensures a.ids[i] in Expected(m.vis, m.all) && fits(a.ids[i], a.items[i]) {
      assert (before + a.ids)[|before| + i] == a.ids[i];
      assert Expected(m.vis, m.all)[|before| + i] == a.ids[i];
    }
  }

  lemma RestartInit<T>(x: Context<T>, xs: seq<Context<T>>, rs: seq<Paging.Request>, replies: seq<Reply<T>>)
    requires IsRestartRun(x, xs, rs, replies) && xs != []
    ensures var n := |xs| - 1;
            && |rs| == |replies| == |xs| && SameSearch(x, xs[n])
            && IsRestartRun(x, xs[..n], rs[..n], replies[..n]) && !Over(replies[..n])
            && (replies[n].Error? || replies[n] == Respond(xs[n], rs[n], LastToken(replies[..n]), []))
  {
    hide Respond, Over, LastToken;
    var n := |xs| - 1;
    assert Restarts(xs, rs, replies, n);
    forall i | 0 <= i < n ensures Restarts(xs[..n], rs[..n], replies[..n], i) {
      assert Restarts(xs, rs, replies, i) && replies[..n][..i] == replies[..i];
    }
  }

  /** Where a token resumes is the same for every Gmail and history. */
  lemma ResumesAnywhere<T>(x: Context<T>, y: Context<T>, m: Mailbox, raw: string, log: seq<Search.Call<T>>, ids: seq<string>, p: nat)
    requires SameSearch(x, y) && Resumable(x, raw, ids) && Begins(m, Opening(x, raw, log), p)
    ensures Resumable(y, raw, ids) && Begins(m, Opening(y, raw, []), p)
  {
    hide Cursor.DecodeToken, Tidy, Begins;
    OpeningAnyLog(x, y, raw, log, []);
    OpeningAnyLog(x, y, raw, [], []);
    BeginsAnyLog(m, Opening(x, raw, log), [], p);
  }

  lemma AfterItems<T>(replies: seq<Reply<T>>)
    requires replies != []
    ensures var a, init := replies[|replies| - 1], replies[..|replies| - 1];
            AllItems(replies) == if a.Answer? then AllItems(init) + a.items else AllItems(init)
  {}

  /** An answer is full if it has a successor, and its items fit its ids, which are visible. */
  ghost predicate RightAnswer<T(!new)>(x: Context<T>, m: Mailbox, fits: (string, T) -> bool, r: Paging.Request, a: Reply<T>) {
    a.Answer? ==>
      && Fitting(fits, a.ids, a.items)
      && (forall id :: id in a.ids ==> id in Expected(m.vis, m.all))
      && (a.next != "" ==> |a.ids| == LimitOf(x, r))
  }

  /** The next answer, from Gmail `y`, in the terms of search `x`. */
  lemma RestartStep<T(!new)>(x: Context<T>, y: Context<T>, m: Mailbox, fits: (string, T) -> bool, r: Paging.Request, raw: string,
                             before: seq<string>, p: nat)
    returns (q: nat)
    requires SameSearch(x, y) && ServesItems(y, m, fits) && Respond(y, r, raw, []).Answer?
    requires Resumable(x, raw, before) && Begins(m, Opening(x, raw, []), p) && before <= Expected(m.vis, m.all)
    ensures var a := Respond(y, r, raw, []);
            var ids := before + a.ids;
            && RightAnswer(x, m, fits, r, a)
            && Fitting(fits, a.ids, a.items)
            && ids <= Expected(m.vis, m.all)
            && (a.next == "" ==> ids == Expected(m.vis, m.all))
            && (a.next != "" ==> Resumable(x, a.next, ids) && Begins(m, Opening(x, a.next, []), q))
  {
    hide Begins, Expected, Respond, Serves, Tidy, Cursor.DecodeToken, Opening, Fitting, ListsId;
    ResumesAnywhere(x, y, m, raw, [], before, p);
    q := StepTracks(y, m, r, raw, [], before, p);
    var a := Respond(y, r, raw, []);
    AnswerItems(y, m, fits, r, raw, before);
    if a.next != "" { ResumesAnywhere(y, x, m, a.next, a.log, before + a.ids, q); }
  }

  /** Where such a run stands: after the ids `AllIds(replies)`, at a position that
      any further Gmail can resume from. */
  lemma {:induction false} RestartTracks<T(!new)>(x: Context<T>, m: Mailbox, fits: (string, T) -> bool, xs: seq<Context<T>>,
                                                  rs: seq<Paging.Request>, replies: seq<Reply<T>>)
    returns (q: nat)
    requires IsRestartRun(x, xs, rs, replies) && m.issued("") && m.pos("") == 0
    requires forall i :: 0 <= i < |xs| ==> ServesItems(xs[i], m, fits)
    ensures AllIds(replies) <= Expected(m.vis, m.all)
    ensures Over(replies) ==> AllIds(replies) == Expected(m.vis, m.all)
    ensures Fitting(fits, AllIds(replies), AllItems(replies))
    ensures !Over(replies) ==>
              && Resumable(x, LastToken(replies), AllIds(replies))
              && Begins(m, Opening(x, LastToken(replies), []), q)
    ensures forall i :: 0 <= i < |replies| ==> RightAnswer(x, m, fits, rs[i], replies[i])
    decreases |xs|
  {
    q := 0;
    if xs == [] {
      FirstReady(x);
      assert m.all[..0] == [];
    } else {
      hide IsRestartRun, AllIds, AllItems, LastToken, Over, RightAnswer, Resumable, Begins, Expected, Respond, ServesItems, Fitting;
      var n := |xs| - 1;
      var init := replies[..n];
      RestartInit(x, xs, rs, replies);
      FewerServe(xs, m, fits, n);
      q := RestartTracks(x, m, fits, xs[..n], rs[..n], init);
      AfterReply(replies);
      AfterItems(replies);
      q := RestartNext(x, xs[n], m, fits, rs[n], LastToken(init), AllIds(init), q, replies[n]);
      if replies[n].Answer? { FittingConcat(fits, AllIds(init), AllItems(init), replies[n].ids, replies[n].items); }
      AllRight(x, m, fits, rs, replies, n);
    }
  }

  lemma FewerServe<T(!new)>(xs: seq<Context<T>>, m: Mailbox, fits: (string, T) -> bool, n: nat)
    requires n < |xs| && forall i :: 0 <= i < |xs| ==> ServesItems(xs[i], m, fits)
    ensures ServesItems(xs[n], m, fits) && forall i :: 0 <= i < n ==> ServesItems(xs[..n][i], m, fits)
  {
    hide ServesItems;
  }

  /** The same for a reply that may be an error. */
  lemma RestartNext<T(!new)>(x: Context<T>, y: Context<T>, m: Mailbox, fits: (string, T) -> bool, r: Paging.Request, raw: string,
                             before: seq<string>, p: nat, a: Reply<T>)
    returns (q: nat)
    requires SameSearch(x, y) && ServesItems(y, m, fits) && (a.Error? || a == Respond(y, r, raw, []))
    requires Resumable(x, raw, before) && Begins(m, Opening(x, raw, []), p) && before <= Expected(m.vis, m.all)
    ensures var ids, next := if a.Answer? then before + a.ids else before, if a.Answer? then a.next else raw;
            && RightAnswer(x, m, fits, r, a)
            && (a.Answer? ==> Fitting(fits, a.ids, a.items))
            && ids <= Expected(m.vis, m.all)
            && (a.Answer? && next == "" ==> ids == Expected(m.vis, m.all))
            && (a.Error? || next != "" ==> Resumable(x, next, ids) && Begins(m, Opening(x, next, []), q))
  {
    hide Begins, Expected, Respond, Serves, ServesItems, Tidy, Cursor.DecodeToken, Opening, Fitting;
    q := p;
    if a.Answer? { q := RestartStep(x, y, m, fits, r, raw, before, p); }
  }

  lemma AllRight<T(!new)>(x: Context<T>, m: Mailbox, fits: (string, T) -> bool, rs: seq<Paging.Request>, replies: seq<Reply<T>>, n: nat)
    requires |rs| == |replies| == n + 1 && RightAnswer(x, m, fits, rs[n], replies[n])
    requires forall i :: 0 <= i < |replies[..n]| ==> RightAnswer(x, m, fits, rs[..n][i], replies[..n][i])
    ensures forall i :: 0 <= i < |replies| ==> RightAnswer(x, m, fits, rs[i], replies[i])
  {
    hide RightAnswer;
    forall i | 0 <= i < |replies| ensures RightAnswer(x, m, fits, rs[i], replies[i]) {
      if i < n { assert RightAnswer(x, m, fits, rs[..n][i], replies[..n][i]); }
    }
  }

  // ---- failures --------------------------------------------------------------------------

  /** Some call to this Gmail fails with the error code. */
  ghost predicate GmailFails<T(!new)>(g: Search.Gmail<T>, code: string) {
    || (exists n, batch, token :: g.list(n, batch, token) == Search.ListFault(Search.Fault(code)))
    || (exists n, id :: g.check(n, id) == Search.CheckFault(Search.Fault(code)))
  }

  /** A search that is not refused for its token fails at its deadline, or with the
      error of a call that failed. */
  lemma SearchFails<T(!new)>(x: Context<T>, r: Paging.Request, raw: string)
    requires Cursor.DecodeToken(raw, x.kind, x.query).Accepted?
    ensures var a := Respond(x, r, raw, []);
            a.Error? ==> (a.code == Search.DEADLINE.code && |a.log| >= r.deadline) || GmailFails(x.g, a.code)
  {
    hide Cursor.DecodeToken, Cursor.EncodeToken, Search.Scan, Search.Start;
    var a := Respond(x, r, raw, []);
    if a.Error? {
      ErrorFailsRightly(x, r, raw, []);
      OpeningAnyLog(x, x, raw, [], []);
      ScanGenuine(x.g, LimitOf(x, r), BatchOf(x, r), r.deadline, Opening(x, raw, []), 0);
      if a.log != [] { assert AnsweredBy(x.g, |a.log| - 1, a.log[|a.log| - 1]); }
    }
  }

  // ---- message searches ------------------------------------------------------------------

  /** The page token that a client sends next: that of the last answer. A request
      that failed is tried again with its token. */
  function LastPage(responses: seq<Response>): string {
    if responses == [] then ""
    else if responses[|responses| - 1].Error? then LastPage(responses[..|responses| - 1])
    else NextPage(responses[|responses| - 1])
  }

  /** The last answer has no successor. */
  predicate Finished(responses: seq<Response>) {
    responses != [] &&
    if responses[|responses| - 1].Error? then Finished(responses[..|responses| - 1])
    else NextPage(responses[|responses| - 1]) == ""
  }

  /** A response and the search behind it go on alike. */
  ghost predicate GoesOn<T>(a: Response, reply: Reply<T>) {
    match reply
    case Error(_, _) => a.Error?
    case Answer(_, _, next, _) => !a.Error? && NextPage(a) == next
  }

  lemma {:induction false} PagesSoFar<T>(responses: seq<Response>, replies: seq<Reply<T>>)
    requires |responses| == |replies|
    requires forall i :: 0 <= i < |responses| ==> GoesOn(responses[i], replies[i])
    ensures LastPage(responses) == LastToken(replies) && Finished(responses) == Over(replies)
  {
    if responses != [] {
      var n := |responses| - 1;
      assert GoesOn(responses[n], replies[n]);
      forall i | 0 <= i < n ensures GoesOn(responses[..n][i], replies[..n][i]) {
        assert GoesOn(responses[i], replies[i]);
      }
      PagesSoFar(responses[..n], replies[..n]);
    }
  }

  /** What the client knows of the search behind a response. */
  function Seen<T>(a: Response, reply: Reply<T>): Reply<T> {
    if a.Error? then Paging.Error("", []) else reply
  }

  function AllSummaries(responses: seq<Response>): seq<Summary> {
    if responses == [] then []
    else
      match responses[|responses| - 1]
      case MessagesResult(summaries, _) => AllSummaries(responses[..|responses| - 1]) + summaries
      case _ => AllSummaries(responses[..|responses| - 1])
  }

  function AllDetails(responses: seq<Response>): seq<Detail> {
    if responses == [] then []
    else
      match responses[|responses| - 1]
      case DetailsResult(details, _) => AllDetails(responses[..|responses| - 1]) + details
      case _ => AllDetails(responses[..|responses| - 1])
  }

  function AllThreads(responses: seq<Response>): seq<ThreadSummary> {
    if responses == [] then []
    else
      match responses[|responses| - 1]
      case ThreadsResult(threads, _) => AllThreads(responses[..|responses| - 1]) + threads
      case _ => AllThreads(responses[..|responses| - 1])
  }

  /** Which searches a run is of: of messages as summaries or in full with or without
      bodies, or of threads. */
  datatype Kind = OfSummaries | OfDetails(body: bool) | OfThreads

  ghost predicate Asks(k: Kind, query: string, r: Handlers.Request) {
    match k
    case OfSummaries => r.SearchMessages? && r.query == query && !r.includeBody && !r.includeAttachments
    case OfDetails(body) => r.SearchMessages? && r.query == query && r.includeBody == body && (body || r.includeAttachments)
    case OfThreads => r.SearchThreads? && r.query == query
  }

  /** The client asks for the next page, or tries again what failed, and gets the
      answer `a`, which may be an error on the way from the broker. */
  ghost predicate ClientStep(cfg: Config, k: Kind, query: string, w: World, r: Handlers.Request, before: seq<Response>, a: Response) {
    && Asks(k, query, r)
    && !Finished(before) && r.token == LastPage(before)
    && (a.Error? || a == Handle(w, cfg, r).0)
  }

  /** A client's run of searches, each request answered over Gmail `ws[i]`. */
  ghost predicate IsClientRun(cfg: Config, k: Kind, query: string, ws: seq<World>, rs: seq<Handlers.Request>,
                              responses: seq<Response>) {
    && |ws| == |rs| == |responses|
    && forall i :: 0 <= i < |ws| ==> ClientStep(cfg, k, query, ws[i], rs[i], responses[..i], responses[i])
  }

  /** Only a full page has a successor. */
  ghost predicate FullResponse(cfg: Config, r: Handlers.Request, a: Response) {
    (r.SearchMessages? || r.SearchThreads?) &&
    var limit := Search.NormalizeLimit(r.limit, cfg.maxSearchResults);
    match a
    case MessagesResult(summaries, nextPage) => nextPage != "" ==> |summaries| == limit
    case DetailsResult(details, nextPage) => nextPage != "" ==> |details| == limit
    case ThreadsResult(threads, nextPage) => nextPage != "" ==> |threads| == limit
    case Error(_) => true
    case _ => false
  }

  // ---- what is asked of Gmail --------------------------------------------------------------

  /** The listing is that of the mailbox, whenever a call for a page succeeds. */
  ghost predicate ListsMailbox(list: (nat, nat, string) -> Search.ListReply, m: Mailbox) {
    && m.issued("") && m.pos("") == 0
    && forall n, batch, token :: m.issued(token) && list(n, batch, token).Page? ==> PageOf(m, token, list(n, batch, token))
  }

  /** Gmail lists the mailbox; a listed visible message has this metadata, which is
      permitted, whenever the call for it succeeds, and a hidden one is not permitted. */
  ghost predicate HoldsMessages(cfg: Config, w: World, m: Mailbox, message: string -> Message) {
    && ListsMailbox(w.listMessages, m)
    && forall n, id :: ListsId(m.all, id) && w.metadata(n, id).Ok? ==>
         if m.vis(id) then w.metadata(n, id).value == message(id) && Permitted(cfg, message(id))
         else !Permitted(cfg, w.metadata(n, id).value)
  }

  /** ... and the full message behind a listed visible id is this one whenever the
      call for it succeeds. */
  ghost predicate HoldsFull(w: World, m: Mailbox, message: string -> Message, full: string -> Message) {
    forall n, id :: ListsId(m.all, id) && m.vis(id) && w.full(n, message(id).id).Ok? ==> w.full(n, message(id).id).value == full(id)
  }

  /** Gmail lists the mailbox; a listed visible thread has this id and these permitted
      messages whenever the call for it succeeds, and a hidden one has no permitted
      message. Hidden messages may come and go. */
  ghost predicate HoldsThreads(cfg: Config, w: World, m: Mailbox, name: string -> string, shown: string -> seq<Message>) {
    && ListsMailbox(w.listThreads, m)
    && forall n, id :: ListsId(m.all, id) && w.threadMetadata(n, id).Ok? ==>
         var thread := w.threadMetadata(n, id).value;
         if m.vis(id) then thread.id == name(id) && shown(id) != [] && Selects(cfg, thread.messages, shown(id))
         else Selects(cfg, thread.messages, [])
  }

  function IsMessage(message: string -> Message): (string, Message) -> bool {
    (id: string, x: Message) => x == message(id)
  }

  lemma HoldsItems(cfg: Config, w: World, query: string, m: Mailbox, message: string -> Message)
    requires HoldsMessages(cfg, w, m, message)
    ensures ServesItems(MessageSearch(w, cfg, query), m, IsMessage(message))
  {
    hide Allows, Permitted, ListsId, PageOf;
    var g := MessageSearch(w, cfg, query).g;
    forall n, id | ListsId(m.all, id) && !g.check(n, id).CheckFault?
      ensures g.check(n, id).Visible? == m.vis(id) && (g.check(n, id).Visible? ==> g.check(n, id).item == message(id))
    {
      if w.metadata(n, id).Ok? { PermittedExactly(cfg, w.metadata(n, id).value); }
    }
  }

  ghost predicate ThreadFits(cfg: Config, name: string -> string, shown: string -> seq<Message>, id: string, s: ThreadSummary) {
    ShowsThread(cfg, s, name(id), shown(id))
  }

  lemma HoldsThreadItems(cfg: Config, w: World, query: string, m: Mailbox, name: string -> string, shown: string -> seq<Message>,
                         fits: (string, ThreadSummary) -> bool)
    requires HoldsThreads(cfg, w, m, name, shown)
    requires forall id, s :: fits(id, s) <==> ThreadFits(cfg, name, shown, id, s)
    ensures ServesItems(ThreadSearch(w, cfg, query), m, fits)
  {
    hide CheckThread, Selects, ShowsThread, ListsId, PageOf;
    var g := ThreadSearch(w, cfg, query).g;
    forall n, id | ListsId(m.all, id) && !g.check(n, id).CheckFault?
      ensures g.check(n, id).Visible? == m.vis(id) && (g.check(n, id).Visible? ==> fits(id, g.check(n, id).item))
    {
      var visible := ThreadSummaryMeans(w, cfg, n, id);
      if w.threadMetadata(n, id).Ok? {
        var thread := w.threadMetadata(n, id).value;
        SelectsUnique(cfg, thread.messages, visible, if m.vis(id) then shown(id) else []);
      }
    }
  }

  /** Failures do not matter: Gmail without one of the messages, whose listing may
      still name it, holds the mailbox just as well. */
  lemma MissingMessageHolds(cfg: Config, w: World, m: Mailbox, message: string -> Message, id: string)
    requires HoldsMessages(cfg, w, m, message)
    ensures HoldsMessages(cfg, Authorisation.WithoutMessage(w, id), m, message)
  {
    hide Permitted, ListsId, ListsMailbox;
    var v := Authorisation.WithoutMessage(w, id);
    assert v.listMessages == w.listMessages;
  }

  // ---- runs of message searches ------------------------------------------------------------

  /** A client's run of message searches is a run of the search behind them. */
  lemma MessageRunIsSearch(cfg: Config, k: Kind, query: string, w: World, ws: seq<World>, rs: seq<Handlers.Request>,
                           responses: seq<Response>)
    returns (xs: seq<Context<Message>>, qs: seq<Paging.Request>, replies: seq<Reply<Message>>)
    requires Scope(cfg) && !k.OfThreads? && IsClientRun(cfg, k, query, ws, rs, responses)
    ensures |xs| == |ws| && forall i :: 0 <= i < |ws| ==> xs[i] == MessageSearch(ws[i], cfg, query)
    ensures |qs| == |ws| && forall i :: 0 <= i < |ws| ==> rs[i].SearchMessages? && qs[i] == Paging.Request(rs[i].limit, rs[i].deadline)
    ensures IsRestartRun(MessageSearch(w, cfg, query), xs, qs, replies)
    ensures forall i :: 0 <= i < |ws| ==>
              replies[i] == Seen(responses[i], MessageReply(ws[i], cfg, rs[i])) && GoesOn(responses[i], replies[i])
    ensures forall i :: 0 <= i < |ws| ==> Asks(k, query, rs[i]) && (responses[i].Error? || responses[i] == Handle(ws[i], cfg, rs[i]).0)
  {
    hide Respond, GoesOn, Handle, Scope, Finished, LastPage, Over, LastToken;
    assert forall i :: 0 <= i < |ws| ==> ClientStep(cfg, k, query, ws[i], rs[i], responses[..i], responses[i]);
    xs := seq(|ws|, i requires 0 <= i < |ws| => MessageSearch(ws[i], cfg, query));
    qs := seq(|ws|, i requires 0 <= i < |ws| && rs[i].SearchMessages? => Paging.Request(rs[i].limit, rs[i].deadline));
    replies := seq(|ws|, i requires 0 <= i < |ws| && rs[i].SearchMessages? => Seen(responses[i], MessageReply(ws[i], cfg, rs[i])));
    forall i | 0 <= i < |ws| ensures GoesOn(responses[i], replies[i]) {
      MessageGoesOn(ws[i], cfg, rs[i], responses[i]);
    }
    forall i | 0 <= i < |ws| ensures Restarts(xs, qs, replies, i) {
      PagesSoFar(responses[..i], replies[..i]);
    }
  }

  lemma MessageGoesOn(w: World, cfg: Config, r: Handlers.Request, a: Response)
    requires r.SearchMessages? && Scope(cfg) && (a.Error? || a == Handle(w, cfg, r).0)
    ensures GoesOn(a, Seen(a, MessageReply(w, cfg, r)))
  {
    hide Handle, MessageReply, Scope, Fetches, ShowsMessage, ItemsAnswered;
    SearchMessagesAnswers(w, cfg, r);
  }

  /** The summaries are those of the messages behind the ids. */
  ghost predicate SummariesShow(cfg: Config, message: string -> Message, ids: seq<string>, summaries: seq<Summary>) {
    |summaries| == |ids| && forall i :: 0 <= i < |ids| ==> ShowsMessage(cfg, summaries[i], message(ids[i]))
  }

  lemma {:induction false} SummariesSoFar(cfg: Config, message: string -> Message, responses: seq<Response>, replies: seq<Reply<Message>>)
    requires |responses| == |replies|
    requires forall i :: 0 <= i < |responses| ==>
               if replies[i].Error? then responses[i].Error?
               else responses[i].MessagesResult? && SummariesShow(cfg, message, replies[i].ids, responses[i].summaries)
    ensures SummariesShow(cfg, message, AllIds(replies), AllSummaries(responses))
  {
    hide ShowsMessage;
    if responses != [] {
      var n := |responses| - 1;
      SummariesSoFar(cfg, message, responses[..n], replies[..n]);
    }
  }

  /** One response of a run of summaries. */
  lemma SummariesShown(cfg: Config, m: Mailbox, message: string -> Message, w: World, x: Context<Message>, q: Paging.Request,
                       r: Handlers.Request, a: Response)
    requires r.SearchMessages? && !r.includeBody && !r.includeAttachments && Scope(cfg) && (a.Error? || a == Handle(w, cfg, r).0)
    requires q.limit == r.limit && x.max == cfg.maxSearchResults
    requires RightAnswer(x, m, IsMessage(message), q, Seen(a, MessageReply(w, cfg, r)))
    ensures FullResponse(cfg, r, a)
    ensures var reply := Seen(a, MessageReply(w, cfg, r));
            if reply.Error? then a.Error? else a.MessagesResult? && SummariesShow(cfg, message, reply.ids, a.summaries)
  {
    hide Handle, MessageReply, Scope, Fetches, ShowsMessage, ItemsAnswered, Expected;
    SearchMessagesAnswers(w, cfg, r);
  }

  /** Each message carries its own id. */
  ghost predicate OwnIds(m: Mailbox, message: string -> Message) {
    forall id :: ListsId(m.all, id) && m.vis(id) ==> message(id).id == id
  }

  lemma OwnIdsShown(m: Mailbox, message: string -> Message, all: seq<string>)
    requires FirstOccurrences(m.vis, m.all, all) && OwnIds(m, message)
    ensures forall i :: 0 <= i < |all| ==> message(all[i]).id == all[i]
  {
    hide ListsId, OccursBefore, Distinct;
    forall i | 0 <= i < |all| ensures message(all[i]).id == all[i] {
      assert all[i] in all;
    }
  }

  /** Whole message searches. Whatever the limits, the page sizes and the failures,
      the responses of a run show, in order, the first occurrences of the visible
      ids: a prefix of them, and all of them once there is no next page. Where each
      message carries its own id the summaries have these very ids. */
  lemma MessageRunRefines(cfg: Config, query: string, m: Mailbox, message: string -> Message,
                          ws: seq<World>, rs: seq<Handlers.Request>, responses: seq<Response>)
    requires Scope(cfg) && IsClientRun(cfg, OfSummaries, query, ws, rs, responses)
    requires forall i :: 0 <= i < |ws| ==> HoldsMessages(cfg, ws[i], m, message)
    ensures exists all :: FirstOccurrences(m.vis, m.all, all) && ShowsPrefix(cfg, m, message, all, responses)
    ensures forall i :: 0 <= i < |ws| ==> FullResponse(cfg, rs[i], responses[i])
  {
    hide FirstOccurrences, Expected, Scope, Resumable, Begins, ClientStep, ServesItems, RightAnswer, Handle, Respond, FullResponse,
      SummariesShow, ShowsMessage, Permitted, OwnIds;
    ExpectedIsFirstOccurrences(m.vis, m.all);
    var all := Expected(m.vis, m.all);
    var ids: seq<string> := [];
    if ws != [] {
      var x := MessageSearch(ws[0], cfg, query);
      var xs, qs, replies := MessageRunIsSearch(cfg, OfSummaries, query, ws[0], ws, rs, responses);
      assert HoldsMessages(cfg, ws[0], m, message);
      forall i | 0 <= i < |ws| ensures ServesItems(xs[i], m, IsMessage(message)) {
        HoldsItems(cfg, ws[i], query, m, message);
      }
      var q := RestartTracks(x, m, IsMessage(message), xs, qs, replies);
      forall i | 0 <= i < |ws|
        ensures FullResponse(cfg, rs[i], responses[i])
        ensures if replies[i].Error? then responses[i].Error?
                else responses[i].MessagesResult? && SummariesShow(cfg, message, replies[i].ids, responses[i].summaries)
      {
        SummariesShown(cfg, m, message, ws[i], x, qs[i], rs[i], responses[i]);
      }
      PagesSoFar(responses, replies);
      SummariesSoFar(cfg, message, responses, replies);
      ids := AllIds(replies);
    } else {
      NoSummaries(cfg, message);
    }
    PrefixShown(cfg, m, message, all, responses, ids);
  }

  lemma NoSummaries(cfg: Config, message: string -> Message)
    ensures SummariesShow(cfg, message, [], AllSummaries([]))
  {}

  /** The summaries of the responses are those of a prefix of `all`, and of all of it
      when there is no next page. */
  ghost predicate ShowsPrefix(cfg: Config, m: Mailbox, message: string -> Message, all: seq<string>, responses: seq<Response>) {
    var summaries := AllSummaries(responses);
    && |summaries| <= |all| && (Finished(responses) ==> |summaries| == |all|)
    && (forall i :: 0 <= i < |summaries| ==> ShowsMessage(cfg, summaries[i], message(all[i])))
    && (OwnIds(m, message) ==> forall i :: 0 <= i < |summaries| ==> summaries[i].id == all[i])
  }

  lemma PrefixShown(cfg: Config, m: Mailbox, message: string -> Message, all: seq<string>, responses: seq<Response>, ids: seq<string>)
    requires FirstOccurrences(m.vis, m.all, all) && ids <= all && (Finished(responses) ==> ids == all)
    requires SummariesShow(cfg, message, ids, AllSummaries(responses))
    ensures ShowsPrefix(cfg, m, message, all, responses)
  {
    hide FirstOccurrences, Permitted, Dates, ReadHeader, HeaderEmails, Sender, Text.Trim;
    if OwnIds(m, message) { OwnIdsShown(m, message, all); }
    forall i | 0 <= i < |ids| ensures ShowsMessage(cfg, AllSummaries(responses)[i], message(all[i])) {
      assert ids[i] == all[i];
    }
  }

  // ---- runs of detailed searches -------------------------------------------------------------

  ghost predicate DetailsShow(cfg: Config, full: string -> Message, body: bool, ids: seq<string>, details: seq<Detail>) {
    |details| == |ids| && forall i :: 0 <= i < |ids| ==> ShowsInFull(cfg, details[i], full(ids[i]), body)
  }

  lemma {:induction false} DetailsSoFar(cfg: Config, full: string -> Message, body: bool, responses: seq<Response>, replies: seq<Reply<Message>>)
    requires |responses| == |replies|
    requires forall i :: 0 <= i < |responses| ==>
               if replies[i].Error? then responses[i].Error?
               else responses[i].DetailsResult? && DetailsShow(cfg, full, body, replies[i].ids, responses[i].details)
    ensures DetailsShow(cfg, full, body, AllIds(replies), AllDetails(responses))
  {
    hide ShowsInFull;
    if responses != [] {
      var n := |responses| - 1;
      DetailsSoFar(cfg, full, body, responses[..n], replies[..n]);
    }
  }

  /** One response of a run of details. */
  lemma DetailsShown(cfg: Config, m: Mailbox, message: string -> Message, full: string -> Message, w: World, x: Context<Message>,
                     q: Paging.Request, r: Handlers.Request, a: Response)
    requires r.SearchMessages? && (r.includeBody || r.includeAttachments) && Scope(cfg) && (a.Error? || a == Handle(w, cfg, r).0)
    requires HoldsFull(w, m, message, full) && q.limit == r.limit && x.max == cfg.maxSearchResults
    requires RightAnswer(x, m, IsMessage(message), q, Seen(a, MessageReply(w, cfg, r)))
    ensures FullResponse(cfg, r, a)
    ensures var reply := Seen(a, MessageReply(w, cfg, r));
            if reply.Error? then a.Error? else a.DetailsResult? && DetailsShow(cfg, full, r.includeBody, reply.ids, a.details)
  {
    hide Handle, MessageReply, Scope, ShowsInFull, ItemsAnswered, Expected, ListsId, OccursBefore;
    SearchMessagesAnswers(w, cfg, r);
    if !a.Error? {
      var reply := MessageReply(w, cfg, r);
      ExpectedIsFirstOccurrences(m.vis, m.all);
      forall i | 0 <= i < |reply.ids| ensures ShowsInFull(cfg, a.details[i], full(reply.ids[i]), r.includeBody) {
        assert reply.ids[i] in reply.ids;
        assert ShowsFetched(cfg, a.details[i], w.full(|reply.log| + i, reply.items[i].id), r.includeBody);
      }
    }
  }

  /** Whole detailed searches: the responses show the full messages of the first
      occurrences of the visible ids, in the same way. */
  lemma DetailRunRefines(cfg: Config, query: string, body: bool, m: Mailbox, message: string -> Message, full: string -> Message,
                         ws: seq<World>, rs: seq<Handlers.Request>, responses: seq<Response>)
    requires Scope(cfg) && IsClientRun(cfg, OfDetails(body), query, ws, rs, responses)
    requires forall i :: 0 <= i < |ws| ==> HoldsMessages(cfg, ws[i], m, message)
    requires forall i :: 0 <= i < |ws| ==> HoldsFull(ws[i], m, message, full)
    ensures exists all :: FirstOccurrences(m.vis, m.all, all) && DetailsPrefix(cfg, m, full, body, all, responses)
    ensures forall i :: 0 <= i < |ws| ==> FullResponse(cfg, rs[i], responses[i])
  {
    hide FirstOccurrences, Expected, Scope, Resumable, Begins, ClientStep, ServesItems, RightAnswer, Handle, Respond, FullResponse,
      DetailsShow, ShowsInFull, Permitted, OwnIds, HoldsFull;
    ExpectedIsFirstOccurrences(m.vis, m.all);
    var all := Expected(m.vis, m.all);
    var ids: seq<string> := [];
    if ws != [] {
      var x := MessageSearch(ws[0], cfg, query);
      var xs, qs, replies := MessageRunIsSearch(cfg, OfDetails(body), query, ws[0], ws, rs, responses);
      assert HoldsMessages(cfg, ws[0], m, message);
      forall i | 0 <= i < |ws| ensures ServesItems(xs[i], m, IsMessage(message)) {
        HoldsItems(cfg, ws[i], query, m, message);
      }
      var q := RestartTracks(x, m, IsMessage(message), xs, qs, replies);
      forall i | 0 <= i < |ws|
        ensures FullResponse(cfg, rs[i], responses[i])
        ensures if replies[i].Error? then responses[i].Error?
                else responses[i].DetailsResult? && DetailsShow(cfg, full, body, replies[i].ids, responses[i].details)
      {
        DetailsShown(cfg, m, message, full, ws[i], x, qs[i], rs[i], responses[i]);
      }
      PagesSoFar(responses, replies);
      DetailsSoFar(cfg, full, body, responses, replies);
      ids := AllIds(replies);
    } else {
      NoDetails(cfg, full, body);
    }
    DetailsPrefixShown(cfg, m, full, body, all, responses, ids);
  }

  lemma NoDetails(cfg: Config, full: string -> Message, body: bool)
    ensures DetailsShow(cfg, full, body, [], AllDetails([]))
  {}

  ghost predicate DetailsPrefix(cfg: Config, m: Mailbox, full: string -> Message, body: bool, all: seq<string>, responses: seq<Response>) {
    var details := AllDetails(responses);
    && |details| <= |all| && (Finished(responses) ==> |details| == |all|)
    && (forall i :: 0 <= i < |details| ==> ShowsInFull(cfg, details[i], full(all[i]), body))
    && (OwnIds(m, full) ==> forall i :: 0 <= i < |details| ==> details[i].summary.id == all[i])
  }

  lemma DetailsPrefixShown(cfg: Config, m: Mailbox, full: string -> Message, body: bool, all: seq<string>, responses: seq<Response>,
                           ids: seq<string>)
    requires FirstOccurrences(m.vis, m.all, all) && ids <= all && (Finished(responses) ==> ids == all)
    requires DetailsShow(cfg, full, body, ids, AllDetails(responses))
    ensures DetailsPrefix(cfg, m, full, body, all, responses)
  {
    hide FirstOccurrences, Dates, ReadHeader, HeaderEmails, Sender, Text.Trim, ListsAttachments, ShowsBody;
    if OwnIds(m, full) { OwnIdsShown(m, full, all); }
    forall i | 0 <= i < |ids| ensures ShowsInFull(cfg, AllDetails(responses)[i], full(all[i]), body) {
      assert ids[i] == all[i];
    }
  }

  // ---- runs of thread searches ---------------------------------------------------------------

  lemma ThreadRunIsSearch(cfg: Config, query: string, w: World, ws: seq<World>, rs: seq<Handlers.Request>, responses: seq<Response>)
    returns (xs: seq<Context<ThreadSummary>>, qs: seq<Paging.Request>, replies: seq<Reply<ThreadSummary>>)
    requires Scope(cfg) && IsClientRun(cfg, OfThreads, query, ws, rs, responses)
    ensures |xs| == |ws| && forall i :: 0 <= i < |ws| ==> xs[i] == ThreadSearch(ws[i], cfg, query)
    ensures |qs| == |ws| && forall i :: 0 <= i < |ws| ==> rs[i].SearchThreads? && qs[i] == Paging.Request(rs[i].limit, rs[i].deadline)
    ensures IsRestartRun(ThreadSearch(w, cfg, query), xs, qs, replies)
    ensures forall i :: 0 <= i < |ws| ==> ShowsThreads(responses[i], replies[i])
  {
    hide Respond, ShowsThreads, Handle, Scope, Finished, LastPage, Over, LastToken;
    assert forall i :: 0 <= i < |ws| ==> ClientStep(cfg, OfThreads, query, ws[i], rs[i], responses[..i], responses[i]);
    xs := seq(|ws|, i requires 0 <= i < |ws| => ThreadSearch(ws[i], cfg, query));
    qs := seq(|ws|, i requires 0 <= i < |ws| && rs[i].SearchThreads? => Paging.Request(rs[i].limit, rs[i].deadline));
    replies := seq(|ws|, i requires 0 <= i < |ws| && rs[i].SearchThreads? => Seen(responses[i], ThreadReply(ws[i], cfg, rs[i])));
    forall i | 0 <= i < |ws| ensures ShowsThreads(responses[i], replies[i]) {
      ThreadResponse(ws[i], cfg, rs[i], responses[i]);
    }
    forall i | 0 <= i < |ws| ensures Restarts(xs, qs, replies, i) {
      ThreadPagesSoFar(responses[..i], replies[..i]);
    }
  }

  ghost predicate ShowsThreads(a: Response, reply: Reply<ThreadSummary>) {
    match reply
    case Error(_, _) => a.Error?
    case Answer(_, items, next, _) => a == ThreadsResult(items, next)
  }

  lemma ThreadResponse(w: World, cfg: Config, r: Handlers.Request, a: Response)
    requires r.SearchThreads? && Scope(cfg) && (a.Error? || a == Handle(w, cfg, r).0)
    ensures ShowsThreads(a, Seen(a, ThreadReply(w, cfg, r)))
  {
    hide Handle, ThreadReply, Scope, ThreadAnswered;
    SearchThreadsAnswers(w, cfg, r);
  }

  lemma ThreadPagesSoFar(responses: seq<Response>, replies: seq<Reply<ThreadSummary>>)
    requires |responses| == |replies|
    requires forall i :: 0 <= i < |responses| ==> ShowsThreads(responses[i], replies[i])
    ensures LastPage(responses) == LastToken(replies) && Finished(responses) == Over(replies)
  {
    hide Finished, Over, LastPage, LastToken;
    forall i | 0 <= i < |responses| ensures GoesOn(responses[i], replies[i]) {
      assert ShowsThreads(responses[i], replies[i]);
    }
    PagesSoFar(responses, replies);
  }

  lemma {:induction false} ThreadsSoFar(responses: seq<Response>, replies: seq<Reply<ThreadSummary>>)
    requires |responses| == |replies|
    requires forall i :: 0 <= i < |responses| ==> ShowsThreads(responses[i], replies[i])
    ensures AllThreads(responses) == AllItems(replies)
  {
    if responses != [] {
      var n := |responses| - 1;
      assert ShowsThreads(responses[n], replies[n]);
      forall i | 0 <= i < n ensures ShowsThreads(responses[..n][i], replies[..n][i]) {
        assert ShowsThreads(responses[i], replies[i]);
      }
      ThreadsSoFar(responses[..n], replies[..n]);
    }
  }

  lemma FullThreads(x: Context<ThreadSummary>, cfg: Config, m: Mailbox, fits: (string, ThreadSummary) -> bool, q: Paging.Request,
                    r: Handlers.Request, reply: Reply<ThreadSummary>, a: Response)
    requires r.SearchThreads? && q.limit == r.limit && x.max == cfg.maxSearchResults
    requires RightAnswer(x, m, fits, q, reply) && ShowsThreads(a, reply)
    ensures FullResponse(cfg, r, a)
  {}

  /** The summaries of the responses are those of a prefix of `all`, and of all of it
      when there is no next page; where each thread carries its own id they have these
      very ids. */
  ghost predicate ThreadsPrefix(cfg: Config, m: Mailbox, name: string -> string, shown: string -> seq<Message>, all: seq<string>,
                                responses: seq<Response>) {
    var threads := AllThreads(responses);
    && |threads| <= |all| && (Finished(responses) ==> |threads| == |all|)
    && (forall i :: 0 <= i < |threads| ==> ShowsThread(cfg, threads[i], name(all[i]), shown(all[i])))
    && ((forall id :: ListsId(m.all, id) && m.vis(id) ==> name(id) == id) ==>
          forall i :: 0 <= i < |threads| ==> threads[i].threadId == all[i])
  }

  lemma ThreadsPrefixShown(cfg: Config, m: Mailbox, name: string -> string, shown: string -> seq<Message>, all: seq<string>,
                           responses: seq<Response>, ids: seq<string>)
    requires FirstOccurrences(m.vis, m.all, all) && ids <= all && (Finished(responses) ==> ids == all)
    requires |AllThreads(responses)| == |ids|
    requires forall i :: 0 <= i < |ids| ==> ThreadFits(cfg, name, shown, ids[i], AllThreads(responses)[i])
    ensures ThreadsPrefix(cfg, m, name, shown, all, responses)
  {
    hide Text.Trim, ListsId, OccursBefore, Distinct, Mentions, IsLatest, Dates, ReadHeader;
    forall i | 0 <= i < |ids| ensures ShowsThread(cfg, AllThreads(responses)[i], name(all[i]), shown(all[i])) {
      assert ids[i] == all[i] && ThreadFits(cfg, name, shown, ids[i], AllThreads(responses)[i]);
    }
    forall i | 0 <= i < |all| ensures ListsId(m.all, all[i]) && m.vis(all[i]) && Trim(all[i]) == all[i] && all[i] != "" {
      assert all[i] in all;
      ListedTrimmed(m.all, all[i]);
    }
  }

  lemma ListedTrimmed(all: seq<Search.Entry>, id: string)
    requires ListsId(all, id)
    ensures Trim(id) == id
  {
    hide Text.Trim;
    var e :| e in all && e.Entry? && Trim(e.id) == id;
    TrimTwice(e.id);
  }

  /** Whole thread searches, in the same way. */
  lemma ThreadRunRefines(cfg: Config, query: string, m: Mailbox, name: string -> string, shown: string -> seq<Message>,
                         ws: seq<World>, rs: seq<Handlers.Request>, responses: seq<Response>)
    requires Scope(cfg) && IsClientRun(cfg, OfThreads, query, ws, rs, responses)
    requires forall i :: 0 <= i < |ws| ==> HoldsThreads(cfg, ws[i], m, name, shown)
    ensures exists all :: FirstOccurrences(m.vis, m.all, all) && ThreadsPrefix(cfg, m, name, shown, all, responses)
    ensures forall i :: 0 <= i < |ws| ==> FullResponse(cfg, rs[i], responses[i])
  {
    hide FirstOccurrences, Expected, Scope, Resumable, Begins, ClientStep, ServesItems, RightAnswer, Handle, Respond, FullResponse,
      ShowsThreads, ThreadFits, Selects;
    ghost var fits := (id: string, s: ThreadSummary) => ThreadFits(cfg, name, shown, id, s);
    ExpectedIsFirstOccurrences(m.vis, m.all);
    var all := Expected(m.vis, m.all);
    var ids: seq<string> := [];
    if ws != [] {
      var x := ThreadSearch(ws[0], cfg, query);
      var xs, qs, replies := ThreadRunIsSearch(cfg, query, ws[0], ws, rs, responses);
      assert HoldsThreads(cfg, ws[0], m, name, shown);
      forall i | 0 <= i < |ws| ensures ServesItems(xs[i], m, fits) {
        HoldsThreadItems(cfg, ws[i], query, m, name, shown, fits);
      }
      var q := RestartTracks(x, m, fits, xs, qs, replies);
      forall i | 0 <= i < |ws| ensures FullResponse(cfg, rs[i], responses[i]) {
        FullThreads(x, cfg, m, fits, qs[i], rs[i], replies[i], responses[i]);
      }
      ThreadPagesSoFar(responses, replies);
      ThreadsSoFar(responses, replies);
      ids := AllIds(replies);
    }
    ThreadsPrefixShown(cfg, m, name, shown, all, responses, ids);
  }

  /** A policy without a label and without owner-sent mail permits nothing. */
  lemma NoScopeShowsNothing(cfg: Config, m: Message)
    requires !Scope(cfg) && Trim(cfg.rules.value.visibilityLabelID) == ""
    ensures !Permitted(cfg, m)
  {
    hide Text.Trim;
  }
}
