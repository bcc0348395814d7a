/** Whole searches: a run of requests, each resuming from the page token that the
    one before answered (internal/broker/server.go). */
module Paging {
  import opened Text
  import opened Search
  import opened SearchSafety
  import opened SearchReference
  import opened SearchComplete
  import opened SearchResume
  import opened SearchTermination
  import opened Cursor

  /** A response: the ids returned by this request, what was collected for them,
      and the next page token. `log` is the history of Gmail calls so far. */
  datatype Reply<T> =
    | Answer(ids: seq<string>, items: seq<T>, next: string, log: seq<Call<T>>)
    | Error(code: string, log: seq<Call<T>>)

  datatype Request = Request(limit: int, deadline: nat)

  /** What stays the same over a run of requests. */
  datatype Context<T> = Context(g: Gmail<T>, kind: string, query: string, max: int)

  function LimitOf<T>(x: Context<T>, r: Request): nat {
    NormalizeLimit(r.limit, x.max)
  }

  function BatchOf<T>(x: Context<T>, r: Request): nat {
    BatchSize(LimitOf(x, r), x.max)
  }

  /** The loop state that a request with page token `raw` starts from. */
  function Opening<T>(x: Context<T>, raw: string, log: seq<Call<T>>): Loop<T>
    requires DecodeToken(raw, x.kind, x.query).Accepted?
  {
    var c := DecodeToken(raw, x.kind, x.query).cursor;
    Start(c.pending, c.returned, c.token, log)
  }

  function Closing<T>(x: Context<T>, before: nat, o: Outcome<T>): Reply<T> {
    match o
    case Failed(fault, log) => Error(fault.code, log)
    case Done(e) =>
      Answer(if before <= |e.returned| then e.returned[before..] else [], e.found,
             EncodeToken(Cursor(VERSION, x.kind, x.query, e.pending, e.returned, e.token)), e.log)
  }

  function Respond<T>(x: Context<T>, r: Request, raw: string, log: seq<Call<T>>): Reply<T> {
    var d := DecodeToken(raw, x.kind, x.query);
    if d.Rejected? then Error("invalid_params", log)
    else Closing(x, |d.cursor.returned|, Scan(x.g, LimitOf(x, r), BatchOf(x, r), r.deadline, Opening(x, raw, log)))
  }

  method SearchVisibleItems<T>(x: Context<T>, r: Request, raw: string, log: seq<Call<T>>) returns (reply: Reply<T>)
    ensures reply == Respond(x, r, raw, log)
  {
    var limit := NormalizeLimit(r.limit, x.max);
    var batch := BatchSize(limit, x.max);
    var d := DecodeToken(raw, x.kind, x.query);
    if d.Rejected? {
      return Error("invalid_params", log);
    }
    var c := d.cursor;
    var outcome := SearchVisible(x.g, limit, batch, r.deadline, c.pending, c.returned, c.token, log);
    if outcome.Failed? {
      return Error(outcome.fault.code, outcome.log);
    }
    var e := outcome.end;
    var ids := if |c.returned| <= |e.returned| then e.returned[|c.returned|..] else [];
    var next := EncodeToken(Cursor(VERSION, x.kind, x.query, e.pending, e.returned, e.token));
    return Answer(ids, e.found, next, e.log);
  }

  // ---- runs ------------------------------------------------------------------------

  function LastLog<T>(replies: seq<Reply<T>>): seq<Call<T>> {
    if replies == [] then [] else replies[|replies| - 1].log
  }

  /** The page token for the next request: that of the last answer. A request that
      failed is tried again with its own token. */
  function LastToken<T>(replies: seq<Reply<T>>): string {
    if replies == [] then ""
    else
      match replies[|replies| - 1]
      case Answer(_, _, next, _) => next
      case Error(_, _) => LastToken(replies[..|replies| - 1])
  }

  /** The last answer has no successor. */
  predicate Over<T>(replies: seq<Reply<T>>) {
    replies != [] &&
    match replies[|replies| - 1]
    case Answer(_, _, next, _) => next == ""
    case Error(_, _) => Over(replies[..|replies| - 1])
  }

  function AllIds<T>(replies: seq<Reply<T>>): seq<string> {
    if replies == [] then []
    else
      match replies[|replies| - 1]
      case Answer(ids, _, _, _) => AllIds(replies[..|replies| - 1]) + ids
      case Error(_, _) => AllIds(replies[..|replies| - 1])
  }

  /** Request `i` of a run starts the search, resumes it from the last answer, or
      tries a failed request again. */
  ghost predicate Continues<T>(x: Context<T>, rs: seq<Request>, replies: seq<Reply<T>>, i: nat)
    requires i < |rs| == |replies|
  {
    !Over(replies[..i]) && replies[i] == Respond(x, rs[i], LastToken(replies[..i]), LastLog(replies[..i]))
  }

  /** A run of requests from the first page on. Any of them may fail. */
  ghost predicate IsRun<T>(x: Context<T>, rs: seq<Request>, replies: seq<Reply<T>>) {
    |rs| == |replies| && forall i :: 0 <= i < |rs| ==> Continues(x, rs, replies, i)
  }

  /** A run without its last request is a run. */
  lemma RunInit<T>(x: Context<T>, rs: seq<Request>, replies: seq<Reply<T>>)
    requires IsRun(x, rs, replies) && rs != []
    ensures var n := |rs| - 1;
            && |replies| == |rs| && IsRun(x, rs[..n], replies[..n]) && !Over(replies[..n])
            && replies[n] == Respond(x, rs[n], LastToken(replies[..n]), LastLog(replies[..n]))
  {
    hide Respond, Over, LastToken;
    var n := |rs| - 1;
    assert Continues(x, rs, replies, n);
    forall i | 0 <= i < n ensures Continues(x, rs[..n], replies[..n], i) {
      assert Continues(x, rs, replies, i) && replies[..n][..i] == replies[..i];
    }
  }

  /** What the last reply adds. */
  lemma AfterReply<T>(replies: seq<Reply<T>>)
    requires replies != []
    ensures var a, init := replies[|replies| - 1], replies[..|replies| - 1];
            && AllIds(replies) == (if a.Answer? then AllIds(init) + a.ids else AllIds(init))
            && LastToken(replies) == (if a.Answer? then a.next else LastToken(init))
            && Over(replies) == (if a.Answer? then a.next == "" else Over(init))
            && LastLog(replies) == a.log
  {}

  /** A token that a request of a run can resume from, after the ids `returned`. */
  ghost predicate Resumable<T>(x: Context<T>, raw: string, returned: seq<string>) {
    && DecodeToken(raw, x.kind, x.query).Accepted?
    && DecodeToken(raw, x.kind, x.query).cursor.returned == returned
    && Tidy(Opening(x, raw, []), [])
  }

  /** What every request of a run starts from. */
  ghost predicate Ready<T>(x: Context<T>, raw: string, log: seq<Call<T>>, returned: seq<string>) {
    Resumable(x, raw, returned) && Backed(Opening(x, raw, log), []) && Genuine(x.g, log, 0)
  }

  lemma FirstReady<T>(x: Context<T>)
    ensures Ready(x, "", [], [])
    ensures Opening(x, "", []) == Loop([], [], {}, "", [], [])
  {
    TrimEmpty();
  }

  /** The state that an answer leaves behind. */
  ghost predicate Leaves<T>(x: Context<T>, r: Request, raw: string, log: seq<Call<T>>, e: Loop<T>)
    requires DecodeToken(raw, x.kind, x.query).Accepted?
  {
    Scan(x.g, LimitOf(x, r), BatchOf(x, r), r.deadline, Opening(x, raw, log)) == Done(e)
  }

  /** The calls made before do not matter for resuming. */
  lemma AnswerKeepsResumable<T>(x: Context<T>, r: Request, raw: string, log: seq<Call<T>>, returned: seq<string>)
    returns (e: Loop<T>)
    requires Resumable(x, raw, returned) && Respond(x, r, raw, log).Answer?
    ensures Leaves(x, r, raw, log, e) && Tidy(e, [])
    ensures var a := Respond(x, r, raw, log);
            && e.returned == returned + a.ids && e.found == a.items && e.log == a.log && log <= a.log
            && |a.ids| == |a.items| <= LimitOf(x, r)
            && (a.next == "" <==> e.pending == [] && e.token == "")
            && (a.next != "" ==> Resumable(x, a.next, returned + a.ids) && |a.ids| == LimitOf(x, r)
                                 && Opening(x, a.next, a.log) == e.(found := []))
  {
    hide Text.Trim, DecodeToken, EncodeToken, Scan, Backed;
    var s := Opening(x, raw, log);
    var limit, batch := LimitOf(x, r), BatchOf(x, r);
    ScanSafe(x.g, limit, batch, r.deadline, s, []);
    e := Scan(x.g, limit, batch, r.deadline, s).end;
    assert e.returned == returned + e.returned[|returned|..];
    var c := Cursor(VERSION, x.kind, x.query, e.pending, e.returned, e.token);
    EmptyTokenMeansFinished(c);
    TrimEmpty();
    if EncodeToken(c) != "" {
      TokenRoundTrip(c, x.kind, x.query);
      StartOfTidy(e, []);
    }
  }

  lemma AnswerKeepsReady<T>(x: Context<T>, r: Request, raw: string, log: seq<Call<T>>, returned: seq<string>)
    returns (e: Loop<T>)
    requires Ready(x, raw, log, returned) && Respond(x, r, raw, log).Answer?
    ensures Leaves(x, r, raw, log, e) && Tidy(e, []) && Backed(e, [])
    ensures var a := Respond(x, r, raw, log);
            && e.returned == returned + a.ids && e.found == a.items && e.log == a.log && log <= a.log
            && Genuine(x.g, a.log, 0)
            && |a.ids| == |a.items| <= LimitOf(x, r)
            && (a.next == "" <==> e.pending == [] && e.token == "")
            && (a.next != "" ==> Ready(x, a.next, a.log, returned + a.ids) && |a.ids| == LimitOf(x, r)
                                 && Opening(x, a.next, a.log) == e.(found := []))
  {
    hide Text.Trim, DecodeToken, EncodeToken, Scan, Tidy, Genuine, Respond, Start;
    e := AnswerKeepsResumable(x, r, raw, log, returned);
    var s := Opening(x, raw, log);
    OpeningAnyLog(x, x, raw, [], log);
    OpeningAnyLog(x, x, raw, log, log);
    ScanSafe(x.g, LimitOf(x, r), BatchOf(x, r), r.deadline, s, []);
    ScanGenuine(x.g, LimitOf(x, r), BatchOf(x, r), r.deadline, s, 0);
  }

  /** Where a token resumes does not depend on the calls made before, nor on Gmail. */
  lemma OpeningAnyLog<T>(x: Context<T>, y: Context<T>, raw: string, log: seq<Call<T>>, log': seq<Call<T>>)
    requires x.kind == y.kind && x.query == y.query && DecodeToken(raw, x.kind, x.query).Accepted?
    ensures Opening(x, raw, log).(log := log') == Opening(y, raw, log')
    ensures Opening(x, raw, log).log == log && Opening(x, raw, log).found == []
    ensures Tidy(Opening(x, raw, log), []) <==> Tidy(Opening(y, raw, log'), [])
  {
    hide DecodeToken, Unique, IdSet, Clean, Text.Trim;
  }

  /** A failed request leaves its token as good as it was. */
  lemma FailureKeepsReady<T>(x: Context<T>, r: Request, raw: string, log: seq<Call<T>>, returned: seq<string>)
    requires Ready(x, raw, log, returned) && Respond(x, r, raw, log).Error?
    ensures log <= Respond(x, r, raw, log).log && Ready(x, raw, Respond(x, r, raw, log).log, returned)
  {
    hide DecodeToken, EncodeToken, Scan, Offered, Tidy, Unique, IdSet, Genuine;
    ScanGenuine(x.g, LimitOf(x, r), BatchOf(x, r), r.deadline, Opening(x, raw, log), 0);
    LogGrowth(log, Respond(x, r, raw, log).log);
  }

  /** The error is the deadline's, or that of the last call made. */
  ghost predicate FailsRightly<T>(r: Request, a: Reply<T>)
    requires a.Error?
  {
    Faulted(Fault(a.code), r.deadline, a.log)
  }

  lemma ErrorFailsRightly<T>(x: Context<T>, r: Request, raw: string, log: seq<Call<T>>)
    requires DecodeToken(raw, x.kind, x.query).Accepted? && Respond(x, r, raw, log).Error?
    ensures FailsRightly(r, Respond(x, r, raw, log))
  {
    hide DecodeToken, EncodeToken, Scan, Faulted, Start;
    ScanFaulted(x.g, LimitOf(x, r), BatchOf(x, r), r.deadline, Opening(x, raw, log));
  }

  /** Whatever token a client sends, every item of an answer is what the visibility
      check of the id with it gave in this request. */
  lemma AnswerPasses<T>(x: Context<T>, r: Request, raw: string)
    requires Respond(x, r, raw, []).Answer?
    ensures var a := Respond(x, r, raw, []);
            && |a.items| == |a.ids| && Genuine(x.g, a.log, 0)
            && forall i :: 0 <= i < |a.ids| ==> Passed(a.log, a.ids[i], a.items[i])
  {
    hide Text.Trim, DecodeToken, EncodeToken, Scan, Passed, Unique, IdSet;
    var s := Opening(x, raw, []);
    ScanPasses(x.g, LimitOf(x, r), BatchOf(x, r), r.deadline, s);
    ScanGenuine(x.g, LimitOf(x, r), BatchOf(x, r), r.deadline, s, 0);
    var e := Scan(x.g, LimitOf(x, r), BatchOf(x, r), r.deadline, s).end;
    assert e.returned[|s.returned|..] == Respond(x, r, raw, []).ids;
  }

  /** The cursor behind the next page token of an answer, whatever token it was for. */
  lemma NextCursor<T>(x: Context<T>, r: Request, raw: string) returns (c: Cursor)
    requires Respond(x, r, raw, []).Answer?
    ensures var next := Respond(x, r, raw, []).next;
            next == EncodeToken(c) && c.kind == x.kind && c.query == x.query && (next != "" ==> c.pending != [] || !Blank(c.token))
  {
    hide Text.Trim, DecodeToken, EncodeToken, Scan, Unique, IdSet, Blank;
    var e := Scan(x.g, LimitOf(x, r), BatchOf(x, r), r.deadline, Opening(x, raw, [])).end;
    c := Cursor(VERSION, x.kind, x.query, e.pending, e.returned, e.token);
    EmptyTokenMeansFinished(c);
  }

  lemma RejectedAnswer<T>(x: Context<T>, r: Request, raw: string)
    requires DecodeToken(raw, x.kind, x.query).Rejected?
    ensures Respond(x, r, raw, []) == Error("invalid_params", [])
  {
    hide DecodeToken;
  }

  // ---- safety ----------------------------------------------------------------------

  /** One reply of a run, after which the ids `returned` have been returned. */
  ghost predicate SafeReply<T>(x: Context<T>, r: Request, a: Reply<T>, returned: seq<string>, log: seq<Call<T>>) {
    && (a.Error? ==> FailsRightly(r, a))
    && (a.Answer? ==>
      && |a.ids| == |a.items| <= LimitOf(x, r)
      && (forall j :: 0 <= j < |a.ids| ==> Passed(log, a.ids[j], a.items[j]))
      && (a.next != "" ==>
            && DecodeToken(a.next, x.kind, x.query).Accepted?
            && DecodeToken(a.next, x.kind, x.query).cursor.returned == returned))
  }

  /** What safety says of a run. */
  ghost predicate SafeRun<T>(x: Context<T>, rs: seq<Request>, replies: seq<Reply<T>>)
    requires |rs| == |replies|
  {
    && Clean(AllIds(replies), {})
    && Genuine(x.g, LastLog(replies), 0)
    && (forall id :: id in AllIds(replies) ==> Offered(LastLog(replies), id))
    && (forall i :: 0 <= i < |replies| ==> SafeReply(x, rs[i], replies[i], AllIds(replies[..i + 1]), LastLog(replies)))
  }

  lemma AnswerSafe<T>(x: Context<T>, r: Request, raw: string, log: seq<Call<T>>, before: seq<string>)
    requires Ready(x, raw, log, before) && Respond(x, r, raw, log).Answer?
    ensures var a := Respond(x, r, raw, log);
            && SafeReply(x, r, a, before + a.ids, a.log)
            && Clean(before + a.ids, {})
            && (forall id :: id in a.ids ==> Offered(a.log, id))
  {
    hide Text.Trim, DecodeToken, EncodeToken, Scan, Respond, Opening, Tidy, Backed, Clean, Offered, Passed, Genuine;
    var a := Respond(x, r, raw, log);
    var e := AnswerKeepsReady(x, r, raw, log, before);
    SeenIsReturned(e);
    forall j | 0 <= j < |a.ids| ensures Offered(a.log, a.ids[j]) && Passed(a.log, a.ids[j], a.items[j]) {
      CollectedBacked(e, a.log, j);
    }
  }

  /** The last reply of a run, given what holds before it. */
  lemma StepSafe<T>(x: Context<T>, r: Request, raw: string, log: seq<Call<T>>, before: seq<string>)
    requires Ready(x, raw, log, before) && Clean(before, {}) && forall id :: id in before ==> Offered(log, id)
    ensures var a := Respond(x, r, raw, log);
            var ids := if a.Answer? then before + a.ids else before;
            && log <= a.log && Genuine(x.g, a.log, 0) && Clean(ids, {})
            && (forall id :: id in ids ==> Offered(a.log, id))
            && SafeReply(x, r, a, ids, a.log)
            && (a.Error? ==> Ready(x, raw, a.log, before))
            && (a.Answer? && a.next != "" ==> Ready(x, a.next, a.log, ids))
  {
    hide Text.Trim, DecodeToken, EncodeToken, Respond, Opening, Tidy, Backed, Clean, Offered, Passed, Genuine, FailsRightly;
    var a := Respond(x, r, raw, log);
    if a.Answer? {
      var e := AnswerKeepsReady(x, r, raw, log, before);
      AnswerSafe(x, r, raw, log, before);
    } else {
      ErrorFailsRightly(x, r, raw, log);
      FailureKeepsReady(x, r, raw, log, before);
    }
    LogGrowth(log, a.log);
  }

  lemma SafeReplyLater<T>(x: Context<T>, r: Request, a: Reply<T>, returned: seq<string>, log: seq<Call<T>>, more: seq<Call<T>>)
    requires SafeReply(x, r, a, returned, log) && log <= more
    ensures SafeReply(x, r, a, returned, more)
  {
    hide DecodeToken, Passed, Offered, FailsRightly;
    LogGrowth(log, more);
  }

  lemma RepliesStaySafe<T>(x: Context<T>, rs: seq<Request>, replies: seq<Reply<T>>, n: nat)
    requires |rs| == |replies| == n + 1
    requires SafeRun(x, rs[..n], replies[..n]) && LastLog(replies[..n]) <= LastLog(replies)
    requires SafeReply(x, rs[n], replies[n], AllIds(replies), LastLog(replies))
    ensures forall i :: 0 <= i <= n ==> SafeReply(x, rs[i], replies[i], AllIds(replies[..i + 1]), LastLog(replies))
  {
    hide SafeReply, AllIds, LastLog, Clean, Genuine, Offered;
    var init := replies[..n];
    forall i | 0 <= i <= n ensures SafeReply(x, rs[i], replies[i], AllIds(replies[..i + 1]), LastLog(replies)) {
      if i < n {
        assert init[..i + 1] == replies[..i + 1];
        assert rs[..n][i] == rs[i] && init[i] == replies[i];
        SafeReplyLater(x, rs[i], replies[i], AllIds(replies[..i + 1]), LastLog(init), LastLog(replies));
      } else {
        assert replies[..i + 1] == replies;
      }
    }
  }

  /** Every state between two requests of a run. */
  lemma {:induction false} RunState<T>(x: Context<T>, rs: seq<Request>, replies: seq<Reply<T>>)
    requires IsRun(x, rs, replies)
    ensures SafeRun(x, rs, replies)
    ensures !Over(replies) ==> Ready(x, LastToken(replies), LastLog(replies), AllIds(replies))
    decreases |rs|
  {
    assert |rs| == |replies|;
    if rs == [] {
      FirstReady(x);
      NothingUnsafe(x);
    } else {
      hide Respond, SafeReply, Ready, Clean, Genuine, Offered, IsRun, AllIds, LastToken, LastLog, Over;
      var n := |rs| - 1;
      var init := replies[..n];
      RunInit(x, rs, replies);
      RunState(x, rs[..n], init);
      StepSafe(x, rs[n], LastToken(init), LastLog(init), AllIds(init));
      AfterReply(replies);
      RepliesStaySafe(x, rs, replies, n);
    }
  }

  lemma NothingUnsafe<T>(x: Context<T>)
    ensures Genuine(x.g, [], 0) && Clean([], {})
  {}

  /** Safety, against any Gmail. Over a whole run, failed requests included, no id is
      returned twice, every returned item is what its id's visibility check gave and
      its id came from a fetched page, no response exceeds its limit, and each token
      carries the ids of all responses so far. */
  lemma RunIsSafe<T>(x: Context<T>, rs: seq<Request>, replies: seq<Reply<T>>)
    requires IsRun(x, rs, replies)
    ensures SafeRun(x, rs, replies)
  {
    hide SafeRun;
    RunState(x, rs, replies);
  }

  // ---- completeness ----------------------------------------------------------------

  lemma AnswerTracks<T>(x: Context<T>, m: Mailbox, r: Request, raw: string, log: seq<Call<T>>, before: seq<string>, p: nat)
    returns (q: nat)
    requires Serves(x.g, m) && Resumable(x, raw, before) && Begins(m, Opening(x, raw, log), p)
    ensures var a := Respond(x, r, raw, log);
            && (a.Error? && Reliable(x.g, m) ==> a.code == DEADLINE.code)
            && (a.Answer? ==>
                  && |a.items| == |a.ids|
                  && before + a.ids <= Expected(m.vis, m.all)
                  && (a.next == "" ==> before + a.ids == Expected(m.vis, m.all))
                  && (a.next != "" ==>
                        && |a.ids| == LimitOf(x, r)
                        && Resumable(x, a.next, before + a.ids)
                        && Begins(m, Opening(x, a.next, a.log), q)))
  {
    hide Text.Trim, DecodeToken, EncodeToken, Scan, Start, Serves, Reliable, Tracks, Settled, Tidy, Genuine, Expected;
    OpeningAnyLog(x, x, raw, [], log);
    q := ScanTracks(x.g, m, LimitOf(x, r), BatchOf(x, r), r.deadline, Opening(x, raw, log), p);
    if Respond(x, r, raw, log).Answer? {
      var e := AnswerKeepsResumable(x, r, raw, log, before);
      TracksMeans(m, e, q);
      NextBegins(m, e, q);
    }
  }

  lemma BeginsAnyLog<T>(m: Mailbox, s: Loop<T>, log: seq<Call<T>>, p: nat)
    requires Begins(m, s, p)
    ensures Begins(m, s.(log := log), p)
  {
    hide Expected, Collect;
  }

  lemma FirstBegins<T>(x: Context<T>, m: Mailbox)
    requires Serves(x.g, m)
    ensures Resumable(x, "", []) && Begins(m, Opening(x, "", []), 0)
  {
    FirstReady(x);
    assert m.all[..0] == [];
  }

  /** Every answer with a successor is full, and a request fails only at its deadline
      or with its last call. */
  ghost predicate FullReply<T>(x: Context<T>, r: Request, a: Reply<T>) {
    match a
    case Answer(ids, items, next, _) => |items| == |ids| && (next != "" ==> |ids| == LimitOf(x, r))
    case Error(_, _) => FailsRightly(r, a)
  }

  /** The last reply of a run over an unchanging mailbox, given where the run stood. */
  lemma StepTracks<T>(x: Context<T>, m: Mailbox, r: Request, raw: string, log: seq<Call<T>>, before: seq<string>, p: nat)
    returns (q: nat)
    requires Serves(x.g, m) && Resumable(x, raw, before) && Begins(m, Opening(x, raw, log), p)
    requires before <= Expected(m.vis, m.all)
    ensures var a := Respond(x, r, raw, log);
            var ids, next := if a.Answer? then before + a.ids else before, if a.Answer? then a.next else raw;
            && FullReply(x, r, a)
            && ids <= Expected(m.vis, m.all)
            && (a.Answer? && next == "" ==> ids == Expected(m.vis, m.all))
            && (a.Error? || next != "" ==> Resumable(x, next, ids) && Begins(m, Opening(x, next, a.log), q))
  {
    hide Text.Trim, Respond, Serves, Begins, Opening, Expected, Tidy, DecodeToken, FailsRightly;
    q := AnswerTracks(x, m, r, raw, log, before, p);
    var a := Respond(x, r, raw, log);
    if a.Error? {
      ErrorFailsRightly(x, r, raw, log);
      q := p;
      OpeningAnyLog(x, x, raw, log, a.log);
      BeginsAnyLog(m, Opening(x, raw, log), a.log, p);
    }
  }

  /** Where a run over an unchanging mailbox stands. */
  lemma {:induction false} RunTracks<T>(x: Context<T>, m: Mailbox, rs: seq<Request>, replies: seq<Reply<T>>)
    returns (q: nat)
    requires Serves(x.g, m) && IsRun(x, rs, replies)
    ensures AllIds(replies) <= Expected(m.vis, m.all)
    ensures Over(replies) ==> AllIds(replies) == Expected(m.vis, m.all)
    ensures !Over(replies) ==>
              && Resumable(x, LastToken(replies), AllIds(replies))
              && Begins(m, Opening(x, LastToken(replies), LastLog(replies)), q)
    ensures forall i :: 0 <= i < |replies| ==> FullReply(x, rs[i], replies[i])
    decreases |rs|
  {
    q := 0;
    if rs == [] {
      FirstBegins(x, m);
    } else {
      hide IsRun, AllIds, LastToken, LastLog, Over, FullReply, Resumable, Begins, Expected, Respond, Serves;
      var n := |rs| - 1;
      var init := replies[..n];
      RunInit(x, rs, replies);
      var p := RunTracks(x, m, rs[..n], init);
      q := StepTracks(x, m, rs[n], LastToken(init), LastLog(init), AllIds(init), p);
      AfterReply(replies);
      RepliesStayFull(x, rs, replies, n);
    }
  }

  lemma RepliesStayFull<T>(x: Context<T>, rs: seq<Request>, replies: seq<Reply<T>>, n: nat)
    requires |rs| == |replies| == n + 1 && FullReply(x, rs[n], replies[n])
    requires forall i :: 0 <= i < |replies[..n]| ==> FullReply(x, rs[..n][i], replies[..n][i])
    ensures forall i :: 0 <= i < |replies| ==> FullReply(x, rs[i], replies[i])
  {
    forall i | 0 <= i < |replies| ensures FullReply(x, rs[i], replies[i]) {
      if i < n { assert FullReply(x, rs[..n][i], replies[..n][i]); }
    }
  }

  /** Whole-run refinement. Over a mailbox that does not change, whatever the
      limits and page sizes and whichever requests fail, the responses of a run
      concatenate to a prefix of the first occurrences of the visible ids; every
      response with a successor is full; and when the last answer has none, the run
      has returned exactly all of them. */
  lemma WholeRunRefines<T>(x: Context<T>, m: Mailbox, rs: seq<Request>, replies: seq<Reply<T>>)
    requires Serves(x.g, m) && IsRun(x, rs, replies)
    ensures exists all :: FirstOccurrences(m.vis, m.all, all)
              && AllIds(replies) <= all
              && (Over(replies) ==> AllIds(replies) == all)
    ensures forall i :: 0 <= i < |replies| ==> FullReply(x, rs[i], replies[i])
  {
    hide Serves, IsRun, FirstOccurrences, Expected, FullReply, Over, AllIds;
    var q := RunTracks(x, m, rs, replies);
    ExpectedIsFirstOccurrences(m.vis, m.all);
  }

  // ---- splitting -------------------------------------------------------------------

  /** One request with limit `a + b` answers what a request with limit `a` and its
      continuation with limit `b` answer together, down to the next token. */
  lemma SplitRequest<T>(x: Context<T>, raw: string, log: seq<Call<T>>, returned: seq<string>, deadline: nat, a: nat, b: nat)
    requires Ready(x, raw, log, returned) && 0 < a && 0 < b
    requires a + b <= if x.max <= 0 then DEFAULT_SEARCH_LIMIT else x.max
    requires BatchSize(a, x.max) == BatchSize(b, x.max) == BatchSize(a + b, x.max)
    requires Respond(x, Request(a, deadline), raw, log).Answer? && Respond(x, Request(a, deadline), raw, log).next != ""
    ensures var first := Respond(x, Request(a, deadline), raw, log);
            var second := Respond(x, Request(b, deadline), first.next, first.log);
            Respond(x, Request(a + b, deadline), raw, log) ==
              if second.Error? then second
              else Answer(first.ids + second.ids, first.items + second.items, second.next, second.log)
  {
    hide Text.Trim, DecodeToken, EncodeToken, Scan, Tidy, Backed, Genuine, Unique, IdSet;
    var first := Respond(x, Request(a, deadline), raw, log);
    var e := AnswerKeepsReady(x, Request(a, deadline), raw, log, returned);
    var s := Opening(x, raw, log);
    var batch := BatchSize(a, x.max);
    OpeningAnyLog(x, x, raw, [], log);
    SplitAndResume(x.g, a, b, batch, deadline, s, []);
    StartOfTidy(e, []);
    var second := Respond(x, Request(b, deadline), first.next, first.log);
    if second.Answer? {
      var e2 := AnswerKeepsReady(x, Request(b, deadline), first.next, first.log, returned + first.ids);
      assert e2.returned == returned + (first.ids + second.ids);
      assert e2.returned[|returned|..] == first.ids + second.ids;
    }
  }

  /** Split and resume. After any run, at equal batch size, a request with limit
      `a` and its continuation with limit `b` answer together what one request
      with limit `a + b` answers, down to the next token. */
  lemma SplitAndResumeRequests<T>(x: Context<T>, rs: seq<Request>, replies: seq<Reply<T>>, deadline: nat, a: nat, b: nat)
    requires IsRun(x, rs, replies) && !Over(replies)
    requires 0 < a && 0 < b && a + b <= if x.max <= 0 then DEFAULT_SEARCH_LIMIT else x.max
    requires BatchSize(a, x.max) == BatchSize(b, x.max) == BatchSize(a + b, x.max)
    ensures var raw, log := LastToken(replies), LastLog(replies);
            var first := Respond(x, Request(a, deadline), raw, log);
            first.Answer? && first.next != "" ==>
              var second := Respond(x, Request(b, deadline), first.next, first.log);
              Respond(x, Request(a + b, deadline), raw, log) ==
                if second.Error? then second
                else Answer(first.ids + second.ids, first.items + second.items, second.next, second.log)
  {
    hide Respond, Ready, BatchSize, IsRun, SafeRun, Over, LastToken, AllIds;
    RunState(x, rs, replies);
    var raw, log := LastToken(replies), LastLog(replies);
    var first := Respond(x, Request(a, deadline), raw, log);
    if first.Answer? && first.next != "" {
      SplitRequest(x, raw, log, AllIds(replies), deadline, a, b);
    }
  }

  // ---- termination -----------------------------------------------------------------

  /** Exact termination of a request of a run over a chain of pages: whichever calls
      fail, it can be answered only if its limit is within reach or every id on the
      last page is visible, and no answer takes more than `2n` list calls. If no
      call fails, some deadline then lets it answer, and only the deadline makes
      it fail. */
  lemma RequestTermination<T>(x: Context<T>, c: Chain, vis: string -> bool, limit: int, raw: string, log: seq<Call<T>>,
                              before: seq<string>, p: nat)
    requires ServesChain(x.g, c, vis) && Resumable(x, raw, before)
    requires Begins(MailboxOf(c, vis), Opening(x, raw, log), p)
    ensures var n := NormalizeLimit(limit, x.max);
            var answers := exists deadline: nat :: Respond(x, Request(limit, deadline), raw, log).Answer?;
            var within := |Expected(vis, Flatten(c.pages))| >= |before| + n || LastPageClear(c, vis);
            && (answers ==> within)
            && (Reliable(x.g, MailboxOf(c, vis)) && within ==> answers)
    ensures forall deadline: nat :: var a := Respond(x, Request(limit, deadline), raw, log);
              && (a.Error? && Reliable(x.g, MailboxOf(c, vis)) ==> a.code == DEADLINE.code)
              && (a.Answer? ==> ListCalls(a.log) <= ListCalls(log) + 2 * |c.tokens|)
  {
    hide Text.Trim, DecodeToken, EncodeToken, Scan, Backed, Expected, Genuine, Unique, IdSet, Clean, Flatten, PageOf,
      Reliable, AllListed, LastPageClear;
    OpeningAnyLog(x, x, raw, [], log);
    var s := Opening(x, raw, log);
    var n := NormalizeLimit(limit, x.max);
    var batch := BatchSize(n, x.max);
    ChainServes(x.g, c, vis);
    var m := MailboxOf(c, vis);
    var k := if s.token != "" then Index(c, s.token) else if s.pending == [] then 0 else |c.tokens|;
    assert Stands(c, vis, s, k, p);
    ExactTermination(x.g, c, vis, n, batch, s, k, p);
    AnswersExactly(x, limit, raw, log, s);
    forall deadline: nat
      ensures var a := Respond(x, Request(limit, deadline), raw, log);
              && (a.Error? && Reliable(x.g, m) ==> a.code == DEADLINE.code)
              && (a.Answer? ==> a.log == Scan(x.g, n, batch, deadline, s).end.log)
    {
      var q := AnswerTracks(x, m, Request(limit, deadline), raw, log, before, p);
    }
  }

  /** A request is answered under some deadline exactly when its loop ends under some deadline. */
  lemma AnswersExactly<T>(x: Context<T>, limit: int, raw: string, log: seq<Call<T>>, s: Loop<T>)
    requires DecodeToken(raw, x.kind, x.query).Accepted? && s == Opening(x, raw, log)
    ensures var n := NormalizeLimit(limit, x.max);
            (exists deadline: nat :: Respond(x, Request(limit, deadline), raw, log).Answer?)
            <==> (exists deadline: nat :: Scan(x.g, n, BatchSize(n, x.max), deadline, s).Done?)
  {
    hide DecodeToken, EncodeToken, Scan, Opening;
    var n := NormalizeLimit(limit, x.max);
    if deadline: nat :| Respond(x, Request(limit, deadline), raw, log).Answer? {
      assert Scan(x.g, n, BatchSize(n, x.max), deadline, s).Done?;
    }
    if deadline: nat :| Scan(x.g, n, BatchSize(n, x.max), deadline, s).Done? {
      assert Respond(x, Request(limit, deadline), raw, log).Answer?;
    }
  }

  /** Exact termination along a run over a chain of pages. After any responses the
      next request can be answered only if its limit is within reach of the ids not
      yet returned or every id on the last page is visible, and no answer takes
      more than two list calls a page. If no call fails, some deadline then lets
      it answer, and only the deadline makes it fail. */
  lemma NextRequestTerminates<T>(x: Context<T>, c: Chain, vis: string -> bool, rs: seq<Request>, replies: seq<Reply<T>>,
                                 limit: int)
    requires ServesChain(x.g, c, vis) && IsRun(x, rs, replies) && !Over(replies)
    ensures var n := NormalizeLimit(limit, x.max);
            var answers := exists deadline: nat ::
              Respond(x, Request(limit, deadline), LastToken(replies), LastLog(replies)).Answer?;
            var within := |Expected(vis, Flatten(c.pages))| >= |AllIds(replies)| + n || LastPageClear(c, vis);
            && (answers ==> within)
            && (Reliable(x.g, MailboxOf(c, vis)) && within ==> answers)
    ensures forall deadline: nat ::
              var a := Respond(x, Request(limit, deadline), LastToken(replies), LastLog(replies));
              && (a.Error? && Reliable(x.g, MailboxOf(c, vis)) ==> a.code == DEADLINE.code)
              && (a.Answer? ==> ListCalls(a.log) <= ListCalls(LastLog(replies)) + 2 * |c.tokens|)
  {
    hide Respond, Expected, Resumable, Begins, LastPageClear, IsRun, FullReply, Over, LastToken, AllIds, LastLog, Reliable;
    ChainServes(x.g, c, vis);
    var q := RunTracks(x, MailboxOf(c, vis), rs, replies);
    RequestTermination(x, c, vis, limit, LastToken(replies), LastLog(replies), AllIds(replies), q);
  }

  function Answers<T>(replies: seq<Reply<T>>): nat {
    if replies == [] then 0
    else Answers(replies[..|replies| - 1]) + (if replies[|replies| - 1].Answer? then 1 else 0)
  }

  /** A run never has more answers than there are ids to return, and one more. */
  lemma RunLength<T>(x: Context<T>, m: Mailbox, rs: seq<Request>, replies: seq<Reply<T>>)
    requires Serves(x.g, m) && IsRun(x, rs, replies)
    ensures Answers(replies) <= |Expected(m.vis, m.all)| + 1
  {
    hide Respond, Expected, Resumable, Begins;
    var q := RunTracks(x, m, rs, replies);
    FullAnswers(x, rs, replies);
  }

  lemma {:induction false} FullAnswers<T>(x: Context<T>, rs: seq<Request>, replies: seq<Reply<T>>)
    requires IsRun(x, rs, replies)
    requires forall i :: 0 <= i < |replies| ==> FullReply(x, rs[i], replies[i])
    ensures |AllIds(replies)| >= Answers(replies) - (if Over(replies) then 1 else 0)
    decreases |rs|
  {
    assert |rs| == |replies|;
    hide Respond, IsRun;
    if rs != [] {
      var n := |rs| - 1;
      RunInit(x, rs, replies);
      forall i | 0 <= i < n ensures FullReply(x, rs[..n][i], replies[..n][i]) {
        assert FullReply(x, rs[i], replies[i]);
      }
      FullAnswers(x, rs[..n], replies[..n]);
      assert FullReply(x, rs[n], replies[n]);
      AfterReply(replies);
    }
  }

  // ---- what a token shows ----------------------------------------------------------

  /** Two mailboxes that differ only in a listed id that the policy hides. */
  function OneVisible(hidden: string): Context<int> {
    Context(Gmail((n: nat, batch: nat, token: string) => Page([Entry("a"), Entry(hidden)], ""),
                  (n: nat, id: string) => if id == "a" then Visible(0) else Hidden),
            "messages", "", 20)
  }

  lemma OneVisibleAnswer(hidden: string)
    requires IsId(hidden) && hidden != "a"
    ensures Respond(OneVisible(hidden), Request(1, 5), "", []).Answer?
    ensures Respond(OneVisible(hidden), Request(1, 5), "", []).ids == ["a"]
    ensures Respond(OneVisible(hidden), Request(1, 5), "", []).next
         == EncodeToken(Cursor(VERSION, "messages", "", [hidden], ["a"], ""))
  {
    hide Text.Trim, IsSpace, EncodeToken, DecodeToken, IdSet, Tidy, Backed, Genuine;
    var x := OneVisible(hidden);
    FirstReady(x);
    var s := Opening(x, "", []);
    LetterIsId();
    TrimEmpty();
    var entries := [Entry("a"), Entry(hidden)];
    ExtractOne(Entry(hidden));
    assert entries[1..] == [Entry(hidden)];
    assert Extract(entries) == ["a", hidden];
    UniqueOfClean(["a", hidden], {});
    var t := Turn(x.g, 20, 5, s).state;
    assert t.pending == [hidden] && t.returned == ["a"] && t.token == "" && |t.found| == 1;
    assert Scan(x.g, 1, 20, 5, s) == Done(t);
  }

  /** The next page token tells them apart: it carries ids that the search has not
      checked yet. */
  lemma UncheckedIdsShow(b: string, c: string)
    requires IsId(b) && IsId(c) && b != c && b != "a" && c != "a"
    ensures var r, q := Respond(OneVisible(b), Request(1, 5), "", []), Respond(OneVisible(c), Request(1, 5), "", []);
            r.Answer? && q.Answer? && r.ids == q.ids && r.next != q.next
  {
    hide Respond, EncodeToken;
    OneVisibleAnswer(b);
    OneVisibleAnswer(c);
    TokenInjective(Cursor(VERSION, "messages", "", [b], ["a"], ""), Cursor(VERSION, "messages", "", [c], ["a"], ""));
  }
}
