/** Completeness of the search loop: over a mailbox whose result list does not
    change, the ids returned so far always are a prefix of the reference list,
    and a finished search has returned all of it. */
module SearchComplete {
  import opened Text
  import opened Search
  import opened SearchSafety
  import opened SearchReference

  /** A fixed result list behind Gmail's paging. `issued` are the page tokens
      Gmail gives out, `pos` is where a token's page starts in the list, and
      `rank` falls along every chain of tokens, so that paging is finite and
      acyclic. How long a page is may vary with the batch size; empty pages are
      allowed. */
  datatype Mailbox = Mailbox(all: seq<Entry>, issued: string -> bool, pos: string -> nat,
                             rank: string -> nat, vis: string -> bool)

  /** The reply is the part of the list that starts at `from`. */
  ghost predicate PartOf(all: seq<Entry>, from: nat, reply: ListReply) {
    reply.Page? && from + |reply.entries| <= |all| && reply.entries == all[from..from + |reply.entries|]
  }

  ghost predicate PageOf(m: Mailbox, token: string, reply: ListReply) {
    && PartOf(m.all, m.pos(token), reply)
    && var next := Trim(reply.next);
       if next == "" then m.pos(token) + |reply.entries| == |m.all|
       else m.issued(next) && m.rank(next) < m.rank(token) && m.pos(next) == m.pos(token) + |reply.entries|
  }

  /** The visibility checks of listed ids answer for `vis`, if they do not fail. */
  ghost predicate ChecksAs<T>(g: Gmail<T>, vis: string -> bool, all: seq<Entry>) {
    forall n, id :: ListsId(all, id) && !g.check(n, id).CheckFault? ==> g.check(n, id).Visible? == vis(id)
  }

  /** Gmail serves exactly this mailbox. Any call may fail. */
  ghost predicate Serves<T>(g: Gmail<T>, m: Mailbox) {
    && m.issued("") && m.pos("") == 0
    && (forall n, batch, token :: m.issued(token) && g.list(n, batch, token).Page? ==> PageOf(m, token, g.list(n, batch, token)))
    && ChecksAs(g, m.vis, m.all)
  }

  /** No call that a search of the mailbox makes fails before the deadline. */
  ghost predicate Reliable<T>(g: Gmail<T>, m: Mailbox) {
    && (forall n, batch, token :: m.issued(token) ==> g.list(n, batch, token).Page?)
    && (forall n, id :: ListsId(m.all, id) ==> !g.check(n, id).CheckFault?)
  }

  ghost predicate AllListed(all: seq<Entry>, ids: seq<string>) {
    forall id :: id in ids ==> ListsId(all, id)
  }

  /** The ids returned and pending are what the first `p` entries give. */
  ghost predicate Tracks<T>(m: Mailbox, s: Loop<T>, p: nat) {
    && m.issued(s.token) && AllListed(m.all, s.pending)
    && p <= |m.all| && (p == |m.all| || p == m.pos(s.token))
    && Collect(m.vis, s.pending, s.returned) == Expected(m.vis, m.all[..p])
  }

  /** The empty token no longer means "start from the first page". */
  ghost predicate Settled<T>(m: Mailbox, s: Loop<T>, p: nat) {
    s.token == "" ==> p == |m.all|
  }

  /** Looking at a pending id collects it if it is visible. */
  lemma PopCollects<T>(g: Gmail<T>, vis: string -> bool, all: seq<Entry>, deadline: nat, s: Loop<T>)
    requires ChecksAs(g, vis, all) && Tidy(s, []) && s.pending != [] && AllListed(all, s.pending)
    ensures var n := Pop(g, deadline, s);
            && !n.Leave?
            && (n.Fail? ==> (n.fault == DEADLINE && |s.log| >= deadline) || g.check(|s.log|, s.pending[0]).CheckFault?)
            && (n.Again? ==>
                  && Collect(vis, n.state.pending, n.state.returned) == Collect(vis, s.pending, s.returned)
                  && n.state.pending == s.pending[1..] && n.state.token == s.token
                  && AllListed(all, n.state.pending))
  {
    hide Text.Trim, ListsId;
    var id := s.pending[0];
    assert IsId(id) && id !in s.seen && ListsId(all, id);
    SeenIsReturned(s);
  }

  lemma PopTracks<T>(g: Gmail<T>, m: Mailbox, deadline: nat, s: Loop<T>, p: nat)
    requires Serves(g, m) && Tidy(s, []) && Tracks(m, s, p) && s.pending != []
    ensures var n := Pop(g, deadline, s);
            && !n.Leave?
            && (n.Fail? && Reliable(g, m) ==> n.fault == DEADLINE && |s.log| >= deadline)
            && (n.Again? ==> Tracks(m, n.state, p) && n.state.pending == s.pending[1..] && n.state.token == s.token)
  {
    hide Text.Trim, Pop, Tidy, Collect, ChecksAs, ListsId;
    assert s.pending[0] in s.pending;
    PopCollects(g, m.vis, m.all, deadline, s);
  }

  /** The position after a page has been fetched. */
  function Advance(all: seq<Entry>, p: nat, reply: ListReply): nat
    requires reply.Page?
  {
    if p == |all| then p else p + |reply.entries|
  }

  lemma PageCollects(vis: string -> bool, all: seq<Entry>, from: nat, p: nat, reply: ListReply)
    requires PartOf(all, from, reply)
    requires p <= |all| && (p == |all| || p == from)
    ensures var q := Advance(all, p, reply);
            q <= |all| && Collect(vis, Extract(reply.entries), Expected(vis, all[..p])) == Expected(vis, all[..q])
  {
    hide Text.Trim;
    var to := from + |reply.entries|;
    if p == |all| {
      assert all[..p] == all;
      PageAlreadyCollected(vis, all, from, to);
    } else {
      assert all[..to] == all[..from] + reply.entries;
      ExpectedConcat(vis, all[..from], reply.entries);
    }
  }

  lemma UniqueIsListed(all: seq<Entry>, from: nat, reply: ListReply, seen: set<string>)
    requires PartOf(all, from, reply)
    ensures AllListed(all, Unique(Extract(reply.entries), seen))
  {
    hide Text.Trim, Unique, Extract;
    UniqueIsClean(Extract(reply.entries), seen);
    forall id | id in Unique(Extract(reply.entries), seen) ensures ListsId(all, id) {
      ExtractLists(reply.entries, id);
      assert forall e :: e in reply.entries ==> e in all;
    }
  }

  /** Fetching a page of the list collects it. */
  lemma RefillCollects<T>(vis: string -> bool, all: seq<Entry>, from: nat, batch: nat, reply: ListReply, s: Loop<T>, p: nat)
    requires PartOf(all, from, reply) && Tidy(s, []) && s.pending == []
    requires p <= |all| && (p == |all| || p == from) && s.returned == Expected(vis, all[..p])
    ensures var s' := Refilled(s, batch, reply);
            && Collect(vis, s'.pending, s'.returned) == Expected(vis, all[..Advance(all, p, reply)])
            && AllListed(all, s'.pending)
  {
    hide Text.Trim, Expected;
    UniqueIsListed(all, from, reply, s.seen);
    PageCollects(vis, all, from, p, reply);
    SeenIsReturned(s);
    CollectUnique(vis, Extract(reply.entries), s.seen, s.returned);
  }

  lemma RefillTracks<T>(g: Gmail<T>, m: Mailbox, batch: nat, s: Loop<T>, p: nat)
    requires Serves(g, m) && Tidy(s, []) && Tracks(m, s, p) && s.pending == []
    requires g.list(|s.log|, batch, s.token).Page?
    ensures var reply := g.list(|s.log|, batch, s.token);
            && PageOf(m, s.token, reply)
            && (Trim(reply.next) != "" ==> Trim(reply.next) != s.token)
            && var q := Advance(m.all, p, reply);
            && Tracks(m, Refilled(s, batch, reply), q)
            && Settled(m, Refilled(s, batch, reply), q)
  {
    hide Text.Trim, Tidy, Expected, Unique, Extract, ListsId;
    var reply := g.list(|s.log|, batch, s.token);
    assert PageOf(m, s.token, reply);
    assert s.returned == Expected(m.vis, m.all[..p]);
    RefillCollects(m.vis, m.all, m.pos(s.token), batch, reply, s, p);
  }

  /** Once the whole list has been collected, a page adds nothing. */
  lemma PageAlreadyCollected(vis: string -> bool, all: seq<Entry>, from: nat, to: nat)
    requires from <= to <= |all|
    ensures Collect(vis, Extract(all[from..to]), Expected(vis, all)) == Expected(vis, all)
  {
    hide Text.Trim;
    ExpectedIsFirstOccurrences(vis, all);
    forall id | id in IdSet(Extract(all[from..to])) && vis(id) ensures id in Expected(vis, all) {
      ExtractLists(all[from..to], id);
      assert forall e :: e in all[from..to] ==> e in all;
    }
    NothingNew(vis, Extract(all[from..to]), Expected(vis, all));
  }

  lemma {:induction false} NothingNew(vis: string -> bool, ids: seq<string>, acc: seq<string>)
    requires forall id :: id in IdSet(ids) && vis(id) ==> id in acc
    ensures Collect(vis, ids, acc) == acc
  {
    hide Text.Trim;
    if ids != [] {
      var id := Trim(ids[0]);
      assert id != "" ==> id in IdSet(ids);
      assert forall x :: x in IdSet(ids[1..]) ==> x in IdSet(ids);
      NothingNew(vis, ids[1..], acc);
    }
  }

  lemma TurnTracks<T>(g: Gmail<T>, m: Mailbox, batch: nat, deadline: nat, s: Loop<T>, p: nat) returns (q: nat)
    requires Serves(g, m) && Tidy(s, []) && Tracks(m, s, p)
    requires Settled(m, s, p) || s.pending == []
    ensures var n := Turn(g, batch, deadline, s);
            && (n.Fail? && Reliable(g, m) ==> n.fault == DEADLINE)
            && (!n.Fail? ==> Tracks(m, n.state, q) && Settled(m, n.state, q))
  {
    hide Text.Trim, ListsId;
    q := p;
    TrimEmpty();
    if s.pending != [] {
      PopTracks(g, m, deadline, s, p);
    } else if |s.log| < deadline && g.list(|s.log|, batch, s.token).Page? {
      RefillTracks(g, m, batch, s, p);
      var reply := g.list(|s.log|, batch, s.token);
      var s1 := Refilled(s, batch, reply);
      q := Advance(m.all, p, reply);
      TrimTwice(reply.next);
      if s1.pending != [] {
        RefillKeeps(g, s, batch, []);
        PopTracks(g, m, deadline, s1, q);
      }
    }
  }

  /** The main invariant over a whole request. The cursor a request ends with
      tracks a position again, so the next request continues from there. */
  lemma {:induction false} ScanTracks<T>(g: Gmail<T>, m: Mailbox, limit: nat, batch: nat, deadline: nat,
                                         s: Loop<T>, p: nat)
    returns (q: nat)
    requires Serves(g, m) && Tidy(s, []) && Tracks(m, s, p)
    requires Settled(m, s, p) || (s.pending == [] && |s.found| < limit)
    ensures var o := Scan(g, limit, batch, deadline, s);
            && (o.Failed? && Reliable(g, m) ==> o.fault == DEADLINE)
            && (o.Done? ==> Tracks(m, o.end, q) && Settled(m, o.end, q))
    decreases CallsLeft(deadline, s), |s.pending|
  {
    hide Text.Trim, Turn, Tidy, Tracks, Settled, Serves, Reliable, Backed;
    q := p;
    if |s.found| < limit {
      q := TurnTracks(g, m, batch, deadline, s, p);
      TurnKeeps(g, batch, deadline, s, []);
      var n := Turn(g, batch, deadline, s);
      if n.Again? {
        TurnDecreases(g, batch, deadline, s);
        q := ScanTracks(g, m, limit, batch, deadline, n.state, q);
      }
    }
  }

  /** What tracking a position says about the ids returned. */
  lemma TracksMeans<T>(m: Mailbox, s: Loop<T>, p: nat)
    requires Tracks(m, s, p)
    ensures s.returned <= Expected(m.vis, m.all)
    ensures Settled(m, s, p) && s.pending == [] && s.token == "" ==> s.returned == Expected(m.vis, m.all)
  {
    CollectGrows(m.vis, s.pending, s.returned);
    ExpectedGrows(m.vis, m.all, p);
    assert m.all[..|m.all|] == m.all;
  }

  /** Where a request of a run over mailbox `m` starts. */
  ghost predicate Begins<T>(m: Mailbox, s: Loop<T>, p: nat) {
    Tracks(m, s, p) && (Settled(m, s, p) || s.pending == []) && s.found == []
  }

  lemma NextBegins<T>(m: Mailbox, s: Loop<T>, p: nat)
    requires Tracks(m, s, p) && Settled(m, s, p)
    ensures Begins(m, s.(found := []), p)
  {}
}
