/** Searches over paging that returns from its last page to an earlier one. The
    repeated-token guard (internal/broker/server.go:382-386) only sees a page that
    names itself, so such a search never finishes: it answers full pages while
    there is something left to fill them, and then runs into its deadline. */
module Cycles {
  import opened Text
  import opened Search
  import opened SearchSafety
  import opened SearchReference
  import opened SearchComplete
  import opened SearchTermination
  import opened Cursor
  import opened Paging

  /** The page after page `k`; behind the last one comes page `back`. */
  function After(c: Chain, back: nat, k: nat): nat {
    if k + 1 < |c.tokens| then k + 1 else back
  }

  /** Gmail serves the pages of the chain, and the last one names page `back`. Any
      call may fail. */
  ghost predicate ServesCycle<T>(g: Gmail<T>, c: Chain, vis: string -> bool, back: nat) {
    && IsChain(c) && 1 <= back < |c.tokens| - 1
    && (forall n, batch, i {:trigger g.list(n, batch, c.tokens[i])} :: 0 <= i < |c.tokens| ==>
          var reply := g.list(n, batch, c.tokens[i]);
          reply.Page? ==> reply.entries == c.pages[i] && Trim(reply.next) == c.tokens[After(c, back, i)])
    && ChecksAs(g, vis, All(c))
  }

  function All(c: Chain): seq<Entry> {
    Flatten(c.pages)
  }

  /** The next page to fetch is page `k`, and the ids returned and pending are what
      the first `p` entries give. */
  ghost predicate Circles<T>(c: Chain, vis: string -> bool, s: Loop<T>, k: nat, p: nat) {
    && IsChain(c) && Tidy(s, [])
    && k < |c.tokens| && s.token == c.tokens[k] && (k == 0 ==> s.pending == [])
    && p <= |All(c)| && (p == |All(c)| || p == Offset(c, k))
    && AllListed(All(c), s.pending)
    && Collect(vis, s.pending, s.returned) == Expected(vis, All(c)[..p])
  }

  ghost predicate Steady<T>(g: Gmail<T>, c: Chain, vis: string -> bool) {
    Reliable(g, MailboxOf(c, vis))
  }

  /** The number of Gmail calls after which everything has been collected. */
  function Left(c: Chain, k: nat, p: nat, pending: nat): nat
    requires k < |c.tokens|
  {
    pending + if p < |All(c)| && Offset(c, k) <= |All(c)| then |c.tokens| - k + |All(c)| - Offset(c, k) else 0
  }

  /** From `s` to `s'` the loop has made a Gmail call and comes nearer to having
      collected everything. */
  ghost predicate GetsOn<T>(c: Chain, vis: string -> bool, s: Loop<T>, k: nat, p: nat, s': Loop<T>, k': nat, q: nat)
    requires k < |c.tokens|
  {
    && Circles(c, vis, s', k', q) && k' > 0
    && |s'.returned| - |s'.found| == |s.returned| - |s.found|
    && |s.log| < |s'.log|
    && (Left(c, k, p, |s.pending|) > 0 ==>
          |s'.log| + Left(c, k', q, |s'.pending|) <= |s.log| + Left(c, k, p, |s.pending|))
  }

  lemma GetsOnTwice<T>(c: Chain, vis: string -> bool, s: Loop<T>, k: nat, p: nat, s1: Loop<T>, k1: nat, q: nat,
                       s2: Loop<T>, k2: nat, q2: nat)
    requires k < |c.tokens| && k1 < |c.tokens| && s1.pending != []
    requires GetsOn(c, vis, s, k, p, s1, k1, q) && GetsOn(c, vis, s1, k1, q, s2, k2, q2)
    ensures GetsOn(c, vis, s, k, p, s2, k2, q2)
  {
    hide Circles, Flatten;
  }

  // ---- one turn ------------------------------------------------------------------------

  lemma PopCircles<T>(g: Gmail<T>, c: Chain, vis: string -> bool, batch: nat, deadline: nat, s: Loop<T>, k: nat, p: nat)
    requires ChecksAs(g, vis, All(c)) && Circles(c, vis, s, k, p) && s.pending != []
    ensures var n := Turn(g, batch, deadline, s);
            && !n.Leave?
            && (n.Fail? && Steady(g, c, vis) ==> |s.log| >= deadline)
            && (n.Again? ==> |s.log| < deadline && GetsOn(c, vis, s, k, p, n.state, k, p))
  {
    hide Text.Trim, Flatten, Offset, Unique, Extract, Expected, Collect, ListsId;
    TurnKeeps(g, batch, deadline, s, []);
    assert s.pending[0] in s.pending;
    PopCollects(g, vis, All(c), deadline, s);
    if Turn(g, batch, deadline, s).Again? { PopLists(g, deadline, s); }
  }

  /** Fetching page `k`. */
  lemma FetchCircles<T>(g: Gmail<T>, c: Chain, vis: string -> bool, back: nat, batch: nat, s: Loop<T>, k: nat, p: nat)
    returns (q: nat)
    requires ServesCycle(g, c, vis, back) && Circles(c, vis, s, k, p) && s.pending == []
    requires g.list(|s.log|, batch, s.token).Page?
    ensures var reply := g.list(|s.log|, batch, s.token);
            GetsOn(c, vis, s, k, p, Refilled(s, batch, reply), After(c, back, k), q)
  {
    hide Text.Trim, Flatten, Expected, Clean, IdSet, ListsId;
    var reply := g.list(|s.log|, batch, c.tokens[k]);
    PageInList(c, k);
    assert PartOf(All(c), Offset(c, k), reply);
    RefillCollects(vis, All(c), Offset(c, k), batch, reply, s, p);
    RefillKeeps(g, s, batch, []);
    ExtractLength(c.pages[k]);
    UniqueLength(Extract(c.pages[k]), s.seen);
    q := Advance(All(c), p, reply);
    if k + 1 == |c.tokens| { assert c.pages[..k + 1] == c.pages; }
  }

  lemma TurnCircles<T>(g: Gmail<T>, c: Chain, vis: string -> bool, back: nat, batch: nat, deadline: nat,
                       s: Loop<T>, k: nat, p: nat)
    returns (k': nat, q: nat)
    requires ServesCycle(g, c, vis, back) && Circles(c, vis, s, k, p)
    ensures var n := Turn(g, batch, deadline, s);
            && !n.Leave?
            && (n.Fail? && Steady(g, c, vis) ==>
                  |s.log| >= deadline || deadline < |s.log| + Left(c, k, p, |s.pending|) || Left(c, k, p, |s.pending|) == 0)
            && (n.Again? ==> |s.log| < deadline && GetsOn(c, vis, s, k, p, n.state, k', q))
  {
    hide Text.Trim, Flatten, Offset, Unique, Extract, Tidy, Collect, Expected, Pop, AllListed, ListsId;
    k', q := k, p;
    assert c.tokens[k] in c.tokens;
    if s.pending != [] {
      PopCircles(g, c, vis, batch, deadline, s, k, p);
    } else if |s.log| < deadline && g.list(|s.log|, batch, s.token).Page? {
      var reply := g.list(|s.log|, batch, c.tokens[k]);
      var s1 := Refilled(s, batch, reply);
      k' := After(c, back, k);
      q := FetchCircles(g, c, vis, back, batch, s, k, p);
      TrimEmpty();
      assert k > 0 ==> IsId(c.tokens[k]);
      assert c.tokens[k'] != c.tokens[k] && c.tokens[k'] != "" && IsId(c.tokens[k']);
      if s1.pending != [] {
        PopCircles(g, c, vis, batch, deadline, s1, k', q);
        assert Turn(g, batch, deadline, s1) == Turn(g, batch, deadline, s);
        if Turn(g, batch, deadline, s).Again? {
          GetsOnTwice(c, vis, s, k, p, s1, k', q, Turn(g, batch, deadline, s).state, k', q);
        }
      }
    }
  }

  // ---- one request ---------------------------------------------------------------------

  /** What has been returned never goes beyond the list. */
  lemma CirclesMeans<T>(c: Chain, vis: string -> bool, s: Loop<T>, k: nat, p: nat)
    requires Circles(c, vis, s, k, p)
    ensures s.returned <= Expected(vis, All(c))
    ensures p == |All(c)| && s.pending == [] ==> s.returned == Expected(vis, All(c))
  {
    CollectGrows(vis, s.pending, s.returned);
    ExpectedGrows(vis, All(c), p);
    assert All(c)[..|All(c)|] == All(c);
  }

  /** A request that ends has met its limit, and stands on the cycle. */
  lemma {:induction false} ScanCircles<T>(g: Gmail<T>, c: Chain, vis: string -> bool, back: nat, limit: nat, batch: nat,
                                          deadline: nat, s: Loop<T>, k: nat, p: nat)
    returns (k': nat, q: nat)
    requires ServesCycle(g, c, vis, back) && Circles(c, vis, s, k, p)
    ensures var o := Scan(g, limit, batch, deadline, s);
            && (o.Done? ==>
                  && Circles(c, vis, o.end, k', q) && (k > 0 || |s.found| < limit ==> k' > 0)
                  && |o.end.found| >= limit
                  && |o.end.returned| - |o.end.found| == |s.returned| - |s.found|)
    decreases CallsLeft(deadline, s), |s.pending|
  {
    hide Text.Trim, Turn, Circles, ServesCycle, Left;
    k', q := k, p;
    if |s.found| < limit {
      k', q := TurnCircles(g, c, vis, back, batch, deadline, s, k, p);
      var n := Turn(g, batch, deadline, s);
      if n.Again? {
        k', q := ScanCircles(g, c, vis, back, limit, batch, deadline, n.state, k', q);
      }
    }
  }

  /** A limit within reach is met, given the calls to collect everything and that
      none of them fails. */
  lemma {:induction false} ScanReaches<T>(g: Gmail<T>, c: Chain, vis: string -> bool, back: nat, limit: nat, batch: nat,
                                          deadline: nat, s: Loop<T>, k: nat, p: nat)
    requires ServesCycle(g, c, vis, back) && Circles(c, vis, s, k, p)
    requires |Expected(vis, All(c))| >= |s.returned| - |s.found| + limit
    requires deadline >= |s.log| + Left(c, k, p, |s.pending|) && Steady(g, c, vis)
    ensures Scan(g, limit, batch, deadline, s).Done?
    decreases CallsLeft(deadline, s), |s.pending|
  {
    hide Text.Trim, Turn, Tidy, ServesCycle, Expected, Flatten, Offset, Steady, AllListed;
    if |s.found| < limit {
      NotYetAll(c, vis, s, k, p);
      var k', q := TurnCircles(g, c, vis, back, batch, deadline, s, k, p);
      var n := Turn(g, batch, deadline, s);
      if n.Again? { ScanReaches(g, c, vis, back, limit, batch, deadline, n.state, k', q); }
    }
  }

  lemma NotYetAll<T>(c: Chain, vis: string -> bool, s: Loop<T>, k: nat, p: nat)
    requires Circles(c, vis, s, k, p) && |s.returned| < |Expected(vis, All(c))|
    ensures Left(c, k, p, |s.pending|) > 0
  {
    hide Text.Trim, Tidy, Expected;
    CirclesMeans(c, vis, s, k, p);
    PageInList(c, k);
  }

  /** Exact termination on a cycle: a request can end only if its limit is within
      reach, and if no call fails some deadline then lets it end. */
  lemma CycleTermination<T>(g: Gmail<T>, c: Chain, vis: string -> bool, back: nat, limit: nat, batch: nat,
                            s: Loop<T>, k: nat, p: nat)
    requires ServesCycle(g, c, vis, back) && Circles(c, vis, s, k, p)
    ensures var ends := exists deadline: nat :: Scan(g, limit, batch, deadline, s).Done?;
            var within := |Expected(vis, All(c))| >= |s.returned| - |s.found| + limit;
            (ends ==> within) && (Steady(g, c, vis) && within ==> ends)
  {
    hide Text.Trim, Tidy, ServesCycle, Expected, Flatten, Scan, Steady;
    if Steady(g, c, vis) && |Expected(vis, All(c))| >= |s.returned| - |s.found| + limit {
      var enough: nat := |s.log| + Left(c, k, p, |s.pending|);
      ScanReaches(g, c, vis, back, limit, batch, enough, s, k, p);
      assert Scan(g, limit, batch, enough, s).Done?;
    }
    forall deadline: nat | Scan(g, limit, batch, deadline, s).Done?
      ensures |Expected(vis, All(c))| >= |s.returned| - |s.found| + limit
    {
      var k', q := ScanCircles(g, c, vis, back, limit, batch, deadline, s, k, p);
      CirclesMeans(c, vis, Scan(g, limit, batch, deadline, s).end, k', q);
    }
  }

  // ---- runs ----------------------------------------------------------------------------

  /** The next reply of a run that stands on the cycle. */
  lemma StepCircles<T>(x: Context<T>, c: Chain, vis: string -> bool, back: nat, r: Request, raw: string,
                       log: seq<Call<T>>, before: seq<string>, k: nat, p: nat)
    returns (k': nat, q: nat)
    requires ServesCycle(x.g, c, vis, back) && Resumable(x, raw, before) && Circles(c, vis, Opening(x, raw, log), k, p)
    ensures var a := Respond(x, r, raw, log);
            var ids, next := if a.Answer? then before + a.ids else before, if a.Answer? then a.next else raw;
            && (a.Answer? ==> next != "" && |a.items| == |a.ids| == LimitOf(x, r))
            && FullReply(x, r, a)
            && Resumable(x, next, ids) && Circles(c, vis, Opening(x, next, a.log), k', q)
  {
    hide FailsRightly, Text.Trim, DecodeToken, EncodeToken, Scan, Tidy, ServesCycle, Expected, Collect, Offset;
    OpeningAnyLog(x, x, raw, log, log);
    k', q := ScanCircles(x.g, c, vis, back, LimitOf(x, r), BatchOf(x, r), r.deadline, Opening(x, raw, log), k, p);
    var a := Respond(x, r, raw, log);
    if a.Answer? {
      var e := AnswerKeepsResumable(x, r, raw, log, before);
      TokenOnCycle(c, vis, e, k', q);
      CirclesAnyFound(c, vis, e, [], e.log, k', q);
    } else {
      k', q := k, p;
      ErrorFailsRightly(x, r, raw, log);
      OpeningAnyLog(x, x, raw, log, a.log);
      CirclesAnyFound(c, vis, Opening(x, raw, log), [], a.log, k, p);
    }
  }

  lemma TokenOnCycle<T>(c: Chain, vis: string -> bool, s: Loop<T>, k: nat, p: nat)
    requires Circles(c, vis, s, k, p) && k > 0
    ensures s.token != ""
  {
    hide Text.Trim;
    assert IsId(c.tokens[k]);
  }

  lemma CirclesAnyFound<T>(c: Chain, vis: string -> bool, s: Loop<T>, found: seq<T>, log: seq<Call<T>>, k: nat, p: nat)
    requires Circles(c, vis, s, k, p) && |found| <= |s.found|
    ensures Circles(c, vis, s.(found := found, log := log), k, p)
  {
    hide Text.Trim, Expected, Collect, Clean, IdSet;
  }

  /** Where a run stands. */
  lemma {:induction false} RunCircles<T>(x: Context<T>, c: Chain, vis: string -> bool, back: nat,
                                         rs: seq<Request>, replies: seq<Reply<T>>)
    returns (k: nat, p: nat)
    requires ServesCycle(x.g, c, vis, back) && IsRun(x, rs, replies)
    ensures !Over(replies) && Resumable(x, LastToken(replies), AllIds(replies))
    ensures Circles(c, vis, Opening(x, LastToken(replies), LastLog(replies)), k, p)
    ensures forall i :: 0 <= i < |replies| ==> FullReply(x, rs[i], replies[i])
    decreases |rs|
  {
    k, p := 0, 0;
    if rs == [] {
      FirstReady(x);
      FirstCircles<T>(c, vis);
    } else {
      hide IsRun, AllIds, LastToken, LastLog, Over, FullReply, Resumable, Circles, Respond, ServesCycle;
      var n := |rs| - 1;
      var init := replies[..n];
      RunInit(x, rs, replies);
      k, p := RunCircles(x, c, vis, back, rs[..n], init);
      k, p := StepCircles(x, c, vis, back, rs[n], LastToken(init), LastLog(init), AllIds(init), k, p);
      AfterReply(replies);
      RepliesStayFull(x, rs, replies, n);
    }
  }

  lemma FirstCircles<T>(c: Chain, vis: string -> bool)
    requires IsChain(c)
    ensures Circles<T>(c, vis, Loop([], [], {}, "", [], []), 0, 0)
  {
    TrimEmpty();
    assert All(c)[..0] == [] && c.pages[..0] == [];
  }

  /** Over paging that returns to an earlier page a run is never over: every answer
      is full and has a successor, and together they are a prefix of the first
      occurrences of the visible ids. */
  lemma CycleRun<T>(x: Context<T>, c: Chain, vis: string -> bool, back: nat, rs: seq<Request>, replies: seq<Reply<T>>)
    requires ServesCycle(x.g, c, vis, back) && IsRun(x, rs, replies)
    ensures !Over(replies) && AllIds(replies) <= Expected(vis, Flatten(c.pages))
    ensures forall i :: 0 <= i < |replies| ==> FullReply(x, rs[i], replies[i])
  {
    hide IsRun, AllIds, LastToken, LastLog, Over, FullReply, ServesCycle, DecodeToken, Circles, Tidy;
    var k, p := RunCircles(x, c, vis, back, rs, replies);
    CirclesMeans(c, vis, Opening(x, LastToken(replies), LastLog(replies)), k, p);
  }

  /** The next request can be answered only if its limit is within reach of the ids
      not yet returned, and if no call fails some deadline then lets it answer. */
  lemma CycleNext<T>(x: Context<T>, c: Chain, vis: string -> bool, back: nat, rs: seq<Request>, replies: seq<Reply<T>>,
                     limit: int)
    requires ServesCycle(x.g, c, vis, back) && IsRun(x, rs, replies)
    ensures var answers := exists deadline: nat ::
              Respond(x, Request(limit, deadline), LastToken(replies), LastLog(replies)).Answer?;
            var within := |Expected(vis, Flatten(c.pages))| >= |AllIds(replies)| + NormalizeLimit(limit, x.max);
            (answers ==> within) && (Steady(x.g, c, vis) && within ==> answers)
  {
    hide IsRun, AllIds, LastToken, LastLog, Over, FullReply, ServesCycle, DecodeToken, Circles, Tidy, Respond, Scan, Expected, Flatten, Steady;
    var k, p := RunCircles(x, c, vis, back, rs, replies);
    var raw, log, n := LastToken(replies), LastLog(replies), NormalizeLimit(limit, x.max);
    var s := Opening(x, raw, log);
    AnswersExactly(x, limit, raw, log, s);
    CycleTermination(x.g, c, vis, back, n, BatchSize(n, x.max), s, k, p);
  }
}
