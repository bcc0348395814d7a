/** When one search request ends at all. Used up below the limit, the last page
    leaves the loop in its first state again (no pending ids, no page token), so
    it starts over from the first page. */
module SearchTermination {
  import opened Lists
  import opened Text
  import opened Search
  import opened SearchSafety
  import opened SearchReference
  import opened SearchComplete

  /** A finite chain of pages: the first has the empty token, every page names the next. */
  datatype Chain = Chain(tokens: seq<string>, pages: seq<seq<Entry>>)

  ghost predicate IsChain(c: Chain) {
    && |c.tokens| == |c.pages| >= 1
    && c.tokens[0] == ""
    && (forall i :: 1 <= i < |c.tokens| ==> IsId(c.tokens[i]))
    && Distinct(c.tokens)
  }

  function TokenAt(c: Chain, k: nat): string {
    if k < |c.tokens| then c.tokens[k] else ""
  }

  /** Gmail serves the pages of the chain. Any call may fail. */
  ghost predicate ServesChain<T>(g: Gmail<T>, c: Chain, vis: string -> bool) {
    && IsChain(c)
    && (forall n, batch, i {:trigger g.list(n, batch, c.tokens[i])} :: 0 <= i < |c.tokens| ==>
          var reply := g.list(n, batch, c.tokens[i]);
          reply.Page? ==> reply.entries == c.pages[i] && Trim(reply.next) == TokenAt(c, i + 1))
    && ChecksAs(g, vis, Flatten(c.pages))
  }

  function Flatten(pages: seq<seq<Entry>>): seq<Entry> {
    if pages == [] then [] else Flatten(pages[..|pages| - 1]) + pages[|pages| - 1]
  }

  /** Where page `k` starts in the whole list. */
  function Offset(c: Chain, k: nat): nat {
    if k <= |c.pages| then |Flatten(c.pages[..k])| else 0
  }

  ghost function Index(c: Chain, token: string): (k: nat)
    ensures token in c.tokens ==> k < |c.tokens| && c.tokens[k] == token
  {
    if token in c.tokens then (var k :| 0 <= k < |c.tokens| && c.tokens[k] == token; k) else 0
  }

  /** The mailbox behind a chain of pages. */
  ghost function MailboxOf(c: Chain, vis: string -> bool): Mailbox {
    Mailbox(Flatten(c.pages), t => t in c.tokens, t => Offset(c, Index(c, t)),
            t => if Index(c, t) < |c.tokens| then |c.tokens| - Index(c, t) else 0, vis)
  }

  lemma {:induction false} FlattenPrefix(pages: seq<seq<Entry>>, k: nat)
    requires k <= |pages|
    ensures Flatten(pages[..k]) <= Flatten(pages)
  {
    if k == |pages| {
      assert pages[..k] == pages;
    } else {
      var init := pages[..|pages| - 1];
      assert init[..k] == pages[..k];
      FlattenPrefix(init, k);
    }
  }

  lemma PageInList(c: Chain, k: nat)
    requires k < |c.pages|
    ensures Offset(c, k + 1) == Offset(c, k) + |c.pages[k]| <= |Flatten(c.pages)|
    ensures Flatten(c.pages)[Offset(c, k)..Offset(c, k + 1)] == c.pages[k]
  {
    assert c.pages[..k + 1][..k] == c.pages[..k];
    FlattenPrefix(c.pages, k + 1);
  }

  lemma IndexOfToken(c: Chain)
    requires IsChain(c)
    ensures forall k :: 0 <= k < |c.tokens| ==> Index(c, c.tokens[k]) == k
  {
    hide Text.Trim;
    forall k | 0 <= k < |c.tokens| ensures Index(c, c.tokens[k]) == k {
      assert c.tokens[k] in c.tokens;
    }
  }

  lemma ChainPage<T>(g: Gmail<T>, c: Chain, vis: string -> bool, n: nat, batch: nat, k: nat)
    requires ServesChain(g, c, vis) && k < |c.tokens| && g.list(n, batch, c.tokens[k]).Page?
    ensures PageOf(MailboxOf(c, vis), c.tokens[k], g.list(n, batch, c.tokens[k]))
  {
    hide Text.Trim, Index, Flatten, ListsId;
    IndexOfToken(c);
    PageInList(c, k);
    if k + 1 < |c.tokens| {
      assert c.tokens[k + 1] in c.tokens && IsId(c.tokens[k + 1]);
    } else {
      assert c.pages[..k + 1] == c.pages;
    }
  }

  /** A chain of pages is a mailbox in the sense of the completeness results. */
  lemma ChainServes<T>(g: Gmail<T>, c: Chain, vis: string -> bool)
    requires ServesChain(g, c, vis)
    ensures Serves(g, MailboxOf(c, vis))
    ensures forall k :: 0 <= k < |c.tokens| ==> Index(c, c.tokens[k]) == k
  {
    hide Text.Trim, ListsId, PageOf;
    var m := MailboxOf(c, vis);
    IndexOfToken(c);
    assert c.tokens[0] in c.tokens && c.pages[..0] == [];
    forall n, batch, token | m.issued(token) && g.list(n, batch, token).Page? ensures PageOf(m, token, g.list(n, batch, token)) {
      ChainPage(g, c, vis, n, batch, Index(c, token));
    }
  }

  // ---- one request on a chain ----------------------------------------------------

  function ListCalls<T>(log: seq<Call<T>>): nat {
    if log == [] then 0 else ListCalls(log[..|log| - 1]) + (if log[|log| - 1].Listed? then 1 else 0)
  }

  lemma ListCallsAppend<T>(log: seq<Call<T>>, call: Call<T>)
    ensures ListCalls(log + [call]) == ListCalls(log) + (if call.Listed? then 1 else 0)
  {
    assert (log + [call])[..|log|] == log;
  }

  /** The next page to fetch is page `k`; behind the last page the token is empty. */
  ghost predicate At<T>(c: Chain, s: Loop<T>, k: nat) {
    k <= |c.tokens| && s.token == TokenAt(c, k)
  }

  /** Every id on the last page is visible. */
  ghost predicate LastPageClear(c: Chain, vis: string -> bool)
    requires |c.pages| >= 1
  {
    forall id :: id in IdSet(Extract(c.pages[|c.pages| - 1])) ==> vis(id)
  }

  /** The number of Gmail calls that are enough from here: `again` says that the
      restart from the first page has been used. */
  function Cost(c: Chain, k: nat, pending: nat, again: bool): nat
    requires k <= |c.tokens| == |c.pages|
  {
    var all := |Flatten(c.pages)|;
    pending + (|c.tokens| - k)
    + (if Offset(c, k) <= all then all - Offset(c, k) else 0)
    + (if again then 0 else |c.tokens| + all)
  }

  lemma {:induction false} ExtractLength(entries: seq<Entry>)
    ensures |Extract(entries)| <= |entries|
  {
    hide Text.Trim;
    if entries != [] { ExtractLength(entries[1..]); }
  }

  lemma {:induction false} UniqueLength(ids: seq<string>, seen: set<string>)
    ensures |Unique(ids, seen)| <= |ids|
  {
    hide Text.Trim;
    if ids != [] {
      UniqueLength(ids[1..], seen);
      UniqueLength(ids[1..], seen + {Trim(ids[0])});
    }
  }

  /** A fetch on a chain. */
  lemma FetchOnChain<T>(g: Gmail<T>, c: Chain, vis: string -> bool, batch: nat, s: Loop<T>, k: nat)
    requires ServesChain(g, c, vis) && At(c, s, k) && k < |c.tokens| && g.list(|s.log|, batch, s.token).Page?
    ensures var reply := g.list(|s.log|, batch, s.token);
            && At(c, Refilled(s, batch, reply), k + 1)
            && |Refilled(s, batch, reply).pending| <= |c.pages[k]|
            && Refilled(s, batch, reply).pending == Unique(Extract(c.pages[k]), s.seen)
            && !(s.token != "" && Trim(reply.next) == s.token)
            && (Trim(reply.next) == "" <==> k + 1 == |c.tokens|)
            && Trim(Trim(reply.next)) == Trim(reply.next)
            && (Trim(reply.next) == Trim(s.token) ==> Trim(reply.next) == "")
            && Cost(c, k, 0, false) - Cost(c, k + 1, 0, false) == 1 + |c.pages[k]|
            && Cost(c, k, 0, true) - Cost(c, k + 1, 0, true) == 1 + |c.pages[k]|
  {
    hide Text.Trim;
    var reply := g.list(|s.log|, batch, s.token);
    assert reply == g.list(|s.log|, batch, c.tokens[k]);
    ExtractLength(c.pages[k]);
    UniqueLength(Extract(c.pages[k]), s.seen);
    PageInList(c, k);
    TrimTwice(reply.next);
    TrimEmpty();
    if k + 1 < |c.tokens| { assert IsId(c.tokens[k + 1]); }
  }

  lemma {:induction false} UniqueOfSeen(ids: seq<string>, seen: set<string>)
    requires forall id :: id in IdSet(ids) ==> id in seen
    ensures Unique(ids, seen) == []
  {
    hide Text.Trim;
    if ids != [] {
      assert !Blank(ids[0]) ==> Trim(ids[0]) in IdSet(ids);
      assert forall id :: id in IdSet(ids[1..]) ==> id in IdSet(ids);
      UniqueOfSeen(ids[1..], seen);
    }
  }

  /** The last page of the list, seen again when everything has been returned:
      nothing is left of it exactly when it is clear. */
  lemma LastPageAgain<T>(c: Chain, vis: string -> bool, s: Loop<T>)
    requires IsChain(c) && Tidy(s, [])
    requires s.returned <= Expected(vis, Flatten(c.pages))
    ensures LastPageClear(c, vis) && s.returned == Expected(vis, Flatten(c.pages)) ==>
              Unique(Extract(c.pages[|c.pages| - 1]), s.seen) == []
    ensures !LastPageClear(c, vis) ==> Unique(Extract(c.pages[|c.pages| - 1]), s.seen) != []
  {
    hide Text.Trim;
    var all, last := Flatten(c.pages), c.pages[|c.pages| - 1];
    SeenIsReturned(s);
    ExpectedIsFirstOccurrences(vis, all);
    UniqueIsClean(Extract(last), s.seen);
    if LastPageClear(c, vis) && s.returned == Expected(vis, all) {
      forall id | id in IdSet(Extract(last)) ensures id in s.seen {
        ExtractLists(last, id);
        assert forall e :: e in last ==> e in all;
      }
      UniqueOfSeen(Extract(last), s.seen);
    }
    if !LastPageClear(c, vis) {
      var id :| id in IdSet(Extract(last)) && !vis(id);
      assert forall x :: x in s.returned ==> x in Expected(vis, all);
    }
  }

  lemma PopLists<T>(g: Gmail<T>, deadline: nat, s: Loop<T>)
    requires s.pending != [] && Pop(g, deadline, s).Again? && Clean(s.pending, s.seen)
    ensures var s' := Pop(g, deadline, s).state;
            ListCalls(s'.log) == ListCalls(s.log) && |s'.log| == |s.log| + 1 && s'.pending == s.pending[1..] && s'.token == s.token
  {
    hide Text.Trim;
    assert IsId(s.pending[0]);
    ListCallsAppend(s.log, Checked(s.pending[0], g.check(|s.log|, s.pending[0])));
  }

  /** A turn that fetches page `k`, and may look at its first id in the same turn. */
  lemma TurnOnChain<T>(g: Gmail<T>, c: Chain, vis: string -> bool, batch: nat, deadline: nat, s: Loop<T>, k: nat)
    requires ServesChain(g, c, vis) && At(c, s, k) && k < |c.tokens|
    requires s.pending == [] && |s.log| < deadline && g.list(|s.log|, batch, s.token).Page?
    ensures var reply := g.list(|s.log|, batch, s.token);
            && var s1 := Refilled(s, batch, reply);
            && At(c, s1, k + 1)
            && s1.pending == Unique(Extract(c.pages[k]), s.seen)
            && Cost(c, k, 0, false) - Cost(c, k + 1, |s1.pending|, false) >= 1
            && Cost(c, k, 0, true) - Cost(c, k + 1, |s1.pending|, true) >= 1
            && var n := Turn(g, batch, deadline, s);
            && (s1.pending != [] ==> n == Pop(g, deadline, s1))
            && (s1.pending == [] ==> n == if k + 1 == |c.tokens| then Leave(s1) else Again(s1))
            && (n.Again? && s1.pending != [] ==> At(c, n.state, k + 1))
  {
    hide Text.Trim;
    FetchOnChain(g, c, vis, batch, s, k);
  }

  /** Where a request on a chain stands: the next page to fetch is page `k`, and
      the ids returned and pending come from the first `p` entries of the list. */
  ghost predicate Stands<T>(c: Chain, vis: string -> bool, s: Loop<T>, k: nat, p: nat) {
    && IsChain(c) && Tidy(s, []) && At(c, s, k)
    && Tracks(MailboxOf(c, vis), s, p)
    && (s.pending == [] || k > 0)
    && (k == |c.tokens| ==> p == |Flatten(c.pages)|)
  }

  /** From `s` to `s'` the loop has got on: it made a Gmail call, stays within the
      cost, and everything returned in between was collected. */
  ghost predicate Progress<T>(c: Chain, vis: string -> bool, s: Loop<T>, k: nat, p: nat, s': Loop<T>, k': nat, q: nat)
    requires k <= |c.tokens| == |c.pages|
  {
    && Stands(c, vis, s', k', q)
    && (p == |Flatten(c.pages)| ==> q == p)
    && |s'.returned| - |s'.found| == |s.returned| - |s.found|
    && |s.log| < |s'.log|
    && ListCalls(s'.log) == ListCalls(s.log) + k' - k
    && |s'.log| + Cost(c, k', |s'.pending|, true) <= |s.log| + Cost(c, k, |s.pending|, true)
  }

  lemma PendingTurn<T>(g: Gmail<T>, c: Chain, vis: string -> bool, batch: nat, deadline: nat, s: Loop<T>, k: nat, p: nat)
    requires ServesChain(g, c, vis) && Stands(c, vis, s, k, p) && s.pending != []
    ensures var n := Turn(g, batch, deadline, s);
            && !n.Leave?
            && (n.Fail? && Reliable(g, MailboxOf(c, vis)) ==> n.fault == DEADLINE && |s.log| >= deadline)
            && (n.Again? ==> |s.log| < deadline && Progress(c, vis, s, k, p, n.state, k, p))
  {
    hide Text.Trim, Flatten, Offset, Unique, Extract, Expected, PageOf, LastPageClear, Collect, Reliable, ListsId;
    ChainServes(g, c, vis);
    TurnKeeps(g, batch, deadline, s, []);
    PopTracks(g, MailboxOf(c, vis), deadline, s, p);
    if Turn(g, batch, deadline, s).Again? { PopLists(g, deadline, s); }
  }

  lemma ProgressOn<T>(c: Chain, vis: string -> bool, s: Loop<T>, k: nat, p: nat, s1: Loop<T>, k1: nat, q: nat,
                      s2: Loop<T>, k2: nat, q2: nat)
    requires k <= |c.tokens| == |c.pages|
    requires Progress(c, vis, s, k, p, s1, k1, q) && Progress(c, vis, s1, k1, q, s2, k2, q2)
    ensures Progress(c, vis, s, k, p, s2, k2, q2)
  {
    hide Stands, Flatten, Cost;
  }

  /** A fetch is progress. */
  lemma FetchStands<T>(g: Gmail<T>, c: Chain, vis: string -> bool, batch: nat, deadline: nat, s: Loop<T>, k: nat, p: nat)
    returns (q: nat)
    requires ServesChain(g, c, vis) && Stands(c, vis, s, k, p)
    requires s.pending == [] && k < |c.tokens| && |s.log| < deadline && g.list(|s.log|, batch, s.token).Page?
    ensures Progress(c, vis, s, k, p, Refilled(s, batch, g.list(|s.log|, batch, s.token)), k + 1, q)
  {
    hide Text.Trim, Turn, Flatten, Unique, Extract, Expected, PageOf, LastPageClear, Collect, Serves, AllListed;
    var m := MailboxOf(c, vis);
    ChainServes(g, c, vis);
    TurnOnChain(g, c, vis, batch, deadline, s, k);
    var reply := g.list(|s.log|, batch, s.token);
    var s1 := Refilled(s, batch, reply);
    RefillTracks(g, m, batch, s, p);
    RefillKeeps(g, s, batch, []);
    q := Advance(m.all, p, reply);
    ListCallsAppend(s.log, s1.log[|s.log|]);
  }

  lemma FetchTurn<T>(g: Gmail<T>, c: Chain, vis: string -> bool, batch: nat, deadline: nat, s: Loop<T>, k: nat, p: nat)
    returns (q: nat)
    requires ServesChain(g, c, vis) && Stands(c, vis, s, k, p)
    requires s.pending == [] && k < |c.tokens| && |s.log| < deadline && g.list(|s.log|, batch, s.token).Page?
    ensures var n := Turn(g, batch, deadline, s);
            && (n.Fail? && Reliable(g, MailboxOf(c, vis)) ==> n.fault == DEADLINE && deadline < |s.log| + Cost(c, k, 0, true))
            && (n.Leave? <==> k + 1 == |c.tokens| && Unique(Extract(c.pages[k]), s.seen) == [])
            && (n.Leave? ==> ListCalls(n.state.log) == ListCalls(s.log) + 1)
            && (n.Again? ==> Progress(c, vis, s, k, p, n.state, k + 1, q))
  {
    hide Text.Trim, Flatten, Offset, Unique, Extract, Tracks, Tidy, LastPageClear, ListCalls, ServesChain, Pop, Reliable;
    q := FetchStands(g, c, vis, batch, deadline, s, k, p);
    TurnOnChain(g, c, vis, batch, deadline, s, k);
    var s1 := Refilled(s, batch, g.list(|s.log|, batch, s.token));
    var n := Turn(g, batch, deadline, s);
    if s1.pending != [] {
      PendingTurn(g, c, vis, batch, deadline, s1, k + 1, q);
      assert n == Turn(g, batch, deadline, s1);
      if n.Again? { ProgressOn(c, vis, s, k, p, s1, k + 1, q, n.state, k + 1, q); }
    }
  }

  /** A fetch on a reliable chain does not fail. */
  lemma FirstFetch<T>(g: Gmail<T>, c: Chain, vis: string -> bool, batch: nat, s: Loop<T>, k: nat)
    requires IsChain(c) && At(c, s, k) && k < |c.tokens|
    ensures Reliable(g, MailboxOf(c, vis)) ==> g.list(|s.log|, batch, s.token).Page?
  {
    hide ListsId;
    assert c.tokens[k] in c.tokens;
  }

  /** One turn: when it fails, when it leaves the loop, and how it gets on if it
      does neither. Page `k` was fetched if nothing was pending. */
  lemma TurnStands<T>(g: Gmail<T>, c: Chain, vis: string -> bool, batch: nat, deadline: nat, s: Loop<T>, k: nat, p: nat)
    returns (q: nat)
    requires ServesChain(g, c, vis) && Stands(c, vis, s, k, p)
    requires s.pending != [] || k < |c.tokens|
    ensures var n := Turn(g, batch, deadline, s);
            && (n.Fail? && Reliable(g, MailboxOf(c, vis)) ==>
                  n.fault == DEADLINE && deadline < |s.log| + Cost(c, k, |s.pending|, true))
            && (n.Leave? ==> s.pending == [] && |s.log| < deadline)
            && (s.pending == [] && !n.Fail? ==> (n.Leave? <==> k + 1 == |c.tokens| && Unique(Extract(c.pages[k]), s.seen) == []))
            && (n.Leave? ==> ListCalls(n.state.log) == ListCalls(s.log) + 1)
            && (n.Again? ==> |s.log| < deadline
                             && Progress(c, vis, s, k, p, n.state, if s.pending == [] then k + 1 else k, q))
  {
    hide Text.Trim, Flatten, Unique, Extract, Progress, Tracks, Tidy, ServesChain, Reliable;
    q := p;
    if s.pending != [] {
      PendingTurn(g, c, vis, batch, deadline, s, k, p);
    } else if |s.log| < deadline {
      FirstFetch(g, c, vis, batch, s, k);
    }
    if s.pending == [] && |s.log| < deadline && g.list(|s.log|, batch, s.token).Page? {
      q := FetchTurn(g, c, vis, batch, deadline, s, k, p);
    }
  }

  /** Behind the last page with nothing pending, the loop is where it started. */
  lemma StandsAgain<T>(c: Chain, vis: string -> bool, s: Loop<T>, p: nat)
    requires Stands(c, vis, s, |c.tokens|, p) && s.pending == []
    ensures Stands(c, vis, s, 0, p) && s.returned == Expected(vis, Flatten(c.pages))
    ensures Cost(c, |c.tokens|, 0, false) == Cost(c, 0, 0, true)
  {
    hide Text.Trim;
    assert Flatten(c.pages)[..|Flatten(c.pages)|] == Flatten(c.pages);
    assert c.pages[..0] == [] && c.pages[..|c.pages|] == c.pages;
  }

  /** The request can end: the limit is within reach or the last page is clear. */
  ghost predicate CanEnd<T>(c: Chain, vis: string -> bool, limit: nat, s: Loop<T>)
    requires |c.pages| >= 1
  {
    |Expected(vis, Flatten(c.pages))| >= |s.returned| - |s.found| + limit || LastPageClear(c, vis)
  }

  /** When everything has been returned, nothing is left of a clear last page. */
  lemma LastPageDone<T>(c: Chain, vis: string -> bool, s: Loop<T>, k: nat, p: nat)
    requires Stands(c, vis, s, k, p) && p == |Flatten(c.pages)| && LastPageClear(c, vis)
    requires s.pending == []
    ensures Unique(Extract(c.pages[|c.pages| - 1]), s.seen) == []
  {
    hide Text.Trim;
    TracksMeans(MailboxOf(c, vis), s, p);
    assert Flatten(c.pages)[..p] == Flatten(c.pages);
    LastPageAgain(c, vis, s);
  }

  /** A request that can end needs at most two list calls a page; a reliable Gmail
      and enough time make it end. */
  lemma {:induction false} Ends<T>(g: Gmail<T>, c: Chain, vis: string -> bool, limit: nat, batch: nat, deadline: nat,
                                   s: Loop<T>, k: nat, p: nat, again: bool)
    requires ServesChain(g, c, vis) && Stands(c, vis, s, k, p)
    requires again ==> p == |Flatten(c.pages)| && k < |c.tokens| && LastPageClear(c, vis)
    requires CanEnd(c, vis, limit, s)
    ensures var o := Scan(g, limit, batch, deadline, s);
            && (o.Done? ==> ListCalls(o.end.log) <= ListCalls(s.log) + (|c.tokens| - k) + (if again then 0 else |c.tokens|))
            && (Reliable(g, MailboxOf(c, vis)) && deadline >= |s.log| + Cost(c, k, |s.pending|, again) ==> o.Done?)
    decreases CallsLeft(deadline, s), |s.pending|, if again then 0 else 1
  {
    hide Text.Trim, Turn, Tracks, Tidy, Offset, ServesChain, LastPageClear, Unique, Extract, Expected, Reliable;
    if |s.found| < limit {
      if s.pending == [] && k == |c.tokens| {
        StandsAgain(c, vis, s, p);
        Ends(g, c, vis, limit, batch, deadline, s, 0, p, true);
      } else {
        var q := TurnStands(g, c, vis, batch, deadline, s, k, p);
        var n := Turn(g, batch, deadline, s);
        if n.Again? {
          var k' := if s.pending == [] then k + 1 else k;
          if again && k' == |c.tokens| {
            LastPageDone(c, vis, s, k, p);
          }
          Ends(g, c, vis, limit, batch, deadline, n.state, k', q, again);
        }
      }
    }
  }

  /** Otherwise no exit is reachable: whatever the deadline and whichever calls
      fail, so does the request. */
  lemma {:induction false} NeverEnds<T>(g: Gmail<T>, c: Chain, vis: string -> bool, limit: nat, batch: nat, deadline: nat,
                                        s: Loop<T>, k: nat, p: nat)
    requires ServesChain(g, c, vis) && Stands(c, vis, s, k, p)
    requires !CanEnd(c, vis, limit, s)
    ensures Scan(g, limit, batch, deadline, s).Failed?
    decreases CallsLeft(deadline, s), |s.pending|, if k == |c.tokens| then 1 else 0
  {
    hide Text.Trim, Turn, Tidy, Offset, ServesChain, Unique, Extract, Expected, Cost;
    TracksMeans(MailboxOf(c, vis), s, p);
    if s.pending == [] && k == |c.tokens| {
      StandsAgain(c, vis, s, p);
      NeverEnds(g, c, vis, limit, batch, deadline, s, 0, p);
    } else {
      LastPageAgain(c, vis, s);
      var q := TurnStands(g, c, vis, batch, deadline, s, k, p);
      var n := Turn(g, batch, deadline, s);
      if n.Again? {
        NeverEnds(g, c, vis, limit, batch, deadline, n.state, if s.pending == [] then k + 1 else k, q);
      }
    }
  }

  function Enough<T>(c: Chain, s: Loop<T>): nat {
    |s.log| + |s.pending| + 2 * |c.tokens| + 2 * |Flatten(c.pages)|
  }

  /** Exact termination. Whichever calls fail, a request on a fixed chain of `n`
      pages can end only if the limit is met or every id on the last page is
      visible, and takes at most `2n` list calls to end. If no call fails it then
      does end, given the stated number of calls. */
  lemma ExactTermination<T>(g: Gmail<T>, c: Chain, vis: string -> bool, limit: nat, batch: nat,
                            s: Loop<T>, k: nat, p: nat)
    requires ServesChain(g, c, vis) && Stands(c, vis, s, k, p) && s.found == []
    ensures (exists deadline: nat :: Scan(g, limit, batch, deadline, s).Done?) ==> CanEnd(c, vis, limit, s)
    ensures Reliable(g, MailboxOf(c, vis)) && CanEnd(c, vis, limit, s) ==>
              && (forall deadline: nat | deadline >= Enough(c, s) :: Scan(g, limit, batch, deadline, s).Done?)
              && (exists deadline: nat :: Scan(g, limit, batch, deadline, s).Done?)
    ensures forall deadline: nat :: var o := Scan(g, limit, batch, deadline, s);
              o.Done? ==> ListCalls(o.end.log) <= ListCalls(s.log) + 2 * |c.tokens|
  {
    hide Scan, Tracks, Tidy, At, CanEnd, ServesChain, Reliable;
    forall deadline: nat
      ensures var o := Scan(g, limit, batch, deadline, s);
              && (o.Done? ==> CanEnd(c, vis, limit, s) && ListCalls(o.end.log) <= ListCalls(s.log) + 2 * |c.tokens|)
              && (Reliable(g, MailboxOf(c, vis)) && CanEnd(c, vis, limit, s) && deadline >= Enough(c, s) ==> o.Done?)
    {
      assert k <= |c.tokens| by { AtIsWithin(c, s, k); }
      if CanEnd(c, vis, limit, s) {
        Ends(g, c, vis, limit, batch, deadline, s, k, p, false);
      } else {
        NeverEnds(g, c, vis, limit, batch, deadline, s, k, p);
      }
    }
    var enough := Enough(c, s);
    assert Reliable(g, MailboxOf(c, vis)) && CanEnd(c, vis, limit, s) ==> Scan(g, limit, batch, enough, s).Done?;
  }

  lemma AtIsWithin<T>(c: Chain, s: Loop<T>, k: nat)
    requires At(c, s, k)
    ensures k <= |c.tokens|
  {}

  const HIDDEN_PAGE := Chain([""], [[Entry("a")]])
  const NOTHING_VISIBLE := (id: string) => false

  lemma HiddenPageStands()
    ensures IsChain(HIDDEN_PAGE) && !LastPageClear(HIDDEN_PAGE, NOTHING_VISIBLE)
    ensures Expected(NOTHING_VISIBLE, Flatten(HIDDEN_PAGE.pages)) == []
    ensures Stands<int>(HIDDEN_PAGE, NOTHING_VISIBLE, Start([], [], "", []), 0, 0)
  {
    LetterIsId();
    TrimEmpty();
    hide Text.Trim, IsSpace;
    var c := HIDDEN_PAGE;
    assert c.pages[..0] == [] && Flatten(c.pages) == [Entry("a")];
    ExtractOne(Entry("a"));
    assert "a" in IdSet(["a"]) by { assert "a" in ["a"]; }
    ExpectedIsFirstOccurrences(NOTHING_VISIBLE, Flatten(c.pages));
    assert forall x :: x !in Expected(NOTHING_VISIBLE, Flatten(c.pages));
    assert Flatten(c.pages)[..0] == [];
    assert c.tokens[0] in c.tokens;
  }

  /** One page with one hidden id is enough: the request for it never ends. */
  lemma OneHiddenIdNeverEnds(deadline: nat)
    ensures var g: Gmail<int> := Gmail((n, b, t) => Page([Entry("a")], ""), (n, id) => Hidden);
            Scan(g, 1, 1, deadline, Start([], [], "", [])).Failed?
  {
    hide Text.Trim, LastPageClear, Expected, Flatten, Tidy, Tracks, Scan;
    var g: Gmail<int> := Gmail((n, b, t) => Page([Entry("a")], ""), (n, id) => Hidden);
    HiddenPageStands();
    TrimEmpty();
    NeverEnds(g, HIDDEN_PAGE, NOTHING_VISIBLE, 1, 1, deadline, Start([], [], "", []), 0, 0);
  }
}
