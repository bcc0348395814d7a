/** Searches over a chain of pages whose last page names itself as its successor.
    The repeated-token guard (internal/broker/server.go:382-386) drops that page
    unread, so the search is one over the pages before it. */
module SelfLoop {
  import opened Lists
  import opened Text
  import opened Search
  import opened SearchSafety
  import opened SearchReference
  import opened SearchComplete
  import opened SearchTermination
  import opened Cursor
  import opened Paging

  ghost predicate NamesItself<T>(g: Gmail<T>, token: string) {
    token != "" && forall n, batch ::
      var reply := g.list(n, batch, token); reply.Page? ==> Trim(reply.next) == token
  }

  /** Gmail serves the pages of the chain, and the last one names itself. Any call
      may fail. */
  ghost predicate ServesLoop<T>(g: Gmail<T>, c: Chain, vis: string -> bool) {
    && IsChain(c)
    && (forall n, batch, i {:trigger g.list(n, batch, c.tokens[i])} :: 0 <= i < |c.tokens| ==>
          var reply := g.list(n, batch, c.tokens[i]);
          reply.Page? ==>
            reply.entries == c.pages[i] && Trim(reply.next) == if i + 1 < |c.tokens| then c.tokens[i + 1] else c.tokens[i])
    && NamesItself(g, c.tokens[|c.tokens| - 1])
    && ChecksAs(g, vis, Flatten(c.pages))
  }

  /** The pages before the one that names itself. */
  function Before(c: Chain): seq<Entry>
    requires |c.pages| >= 1
  {
    Flatten(c.pages[..|c.pages| - 1])
  }

  /** Every visible id on the last page is also on an earlier one. */
  ghost predicate LastPageRepeats(c: Chain, vis: string -> bool)
    requires |c.pages| >= 1
  {
    forall id :: id != "" && vis(id) && ListsId(c.pages[|c.pages| - 1], id) ==> ListsId(Before(c), id)
  }

  // ---- the same search without the page ------------------------------------------------

  /** Gmail with an empty last page in place of the one that names itself. */
  function Muted<T>(g: Gmail<T>, token: string): Gmail<T> {
    g.(list := (n: nat, batch: nat, t: string) =>
         if t == token && g.list(n, batch, t).Page? then Page([], "") else g.list(n, batch, t))
  }

  function MutedChain(c: Chain): Chain
    requires |c.pages| >= 1
  {
    c.(pages := c.pages[..|c.pages| - 1] + [[]])
  }

  ghost predicate SameLoop<T>(s: Loop<T>, s': Loop<T>) {
    s.(log := []) == s'.(log := []) && |s.log| == |s'.log|
  }

  ghost predicate SameNext<T>(n: Next<T>, n': Next<T>) {
    match (n, n')
    case (Again(s), Again(s')) => SameLoop(s, s')
    case (Leave(s), Leave(s')) => SameLoop(s, s')
    case (Fail(fault, log), Fail(fault', log')) => fault == fault' && |log| == |log'|
    case _ => false
  }

  ghost predicate SameOutcome<T>(o: Outcome<T>, o': Outcome<T>) {
    match (o, o')
    case (Done(s), Done(s')) => SameLoop(s, s')
    case (Failed(fault, log), Failed(fault', log')) => fault == fault' && |log| == |log'|
    case _ => false
  }

  ghost predicate SameReply<T>(a: Reply<T>, b: Reply<T>) {
    match (a, b)
    case (Answer(ids, items, next, log), Answer(ids', items', next', log')) =>
      ids == ids' && items == items' && next == next' && |log| == |log'|
    case (Error(code, log), Error(code', log')) => code == code' && |log| == |log'|
    case _ => false
  }

  lemma FewerListed(c: Chain)
    requires |c.pages| >= 1
    ensures forall id :: ListsId(Before(c), id) ==> ListsId(Flatten(c.pages), id)
  {
    hide Text.Trim;
    assert forall e :: e in Before(c) ==> e in Flatten(c.pages);
  }

  lemma MutedReliable<T>(g: Gmail<T>, token: string, m: Mailbox)
    requires Reliable(g, m)
    ensures Reliable(Muted(g, token), m)
  {
    hide ListsId;
  }

  lemma MutedServes<T>(g: Gmail<T>, c: Chain, vis: string -> bool)
    requires ServesLoop(g, c, vis)
    ensures ServesChain(Muted(g, c.tokens[|c.tokens| - 1]), MutedChain(c), vis)
    ensures LastPageClear(MutedChain(c), vis)
    ensures Flatten(MutedChain(c).pages) == Before(c)
  {
    hide Text.Trim;
    TrimEmpty();
    var last := |c.tokens| - 1;
    var h, c' := Muted(g, c.tokens[last]), MutedChain(c);
    forall n, batch, i | 0 <= i < |c'.tokens|
      ensures var reply := h.list(n, batch, c'.tokens[i]);
              reply.Page? ==> reply.entries == c'.pages[i] && Trim(reply.next) == TokenAt(c', i + 1)
    {
      var reply := g.list(n, batch, c.tokens[i]);
      assert c.tokens[i] == c.tokens[last] <==> i == last;
    }
    assert c'.pages[..last] == c.pages[..last];
    FewerListed(c);
  }

  lemma PopMuted<T>(g: Gmail<T>, token: string, deadline: nat, s: Loop<T>, s': Loop<T>)
    requires SameLoop(s, s') && s.pending != []
    ensures SameNext(Pop(g, deadline, s), Pop(Muted(g, token), deadline, s'))
  {
    hide Text.Trim;
  }

  lemma TurnMuted<T>(g: Gmail<T>, token: string, batch: nat, deadline: nat, s: Loop<T>, s': Loop<T>)
    requires NamesItself(g, token) && SameLoop(s, s')
    ensures SameNext(Turn(g, batch, deadline, s), Turn(Muted(g, token), batch, deadline, s'))
  {
    hide Text.Trim, Unique, Pop;
    TrimEmpty();
    var h := Muted(g, token);
    if s.pending != [] {
      PopMuted(g, token, deadline, s, s');
    } else if |s.log| < deadline && s.token != token && g.list(|s.log|, batch, s.token).Page? {
      var reply := g.list(|s.log|, batch, s.token);
      if Unique(Extract(reply.entries), s.seen) != [] {
        PopMuted(g, token, deadline, Refilled(s, batch, reply), Refilled(s', batch, reply));
      }
    } else if |s.log| < deadline && s.token == token && g.list(|s.log|, batch, token).Page? {
      assert Trim(g.list(|s.log|, batch, token).next) == token;
      NothingLeft(s.seen);
    }
  }

  lemma NothingLeft(seen: set<string>)
    ensures Unique(Extract([]), seen) == []
  {}

  lemma {:induction false} ScanMuted<T>(g: Gmail<T>, token: string, limit: nat, batch: nat, deadline: nat,
                                        s: Loop<T>, s': Loop<T>)
    requires NamesItself(g, token) && SameLoop(s, s')
    ensures SameOutcome(Scan(g, limit, batch, deadline, s), Scan(Muted(g, token), limit, batch, deadline, s'))
    decreases CallsLeft(deadline, s), |s.pending|
  {
    hide Text.Trim, Extract, Unique, NamesItself, Muted;
    if |s.found| < limit {
      TurnMuted(g, token, batch, deadline, s, s');
      var n, n' := Turn(g, batch, deadline, s), Turn(Muted(g, token), batch, deadline, s');
      if n.Again? {
        ScanMuted(g, token, limit, batch, deadline, n.state, n'.state);
      }
    }
  }

  lemma RespondMuted<T>(x: Context<T>, token: string, r: Request, raw: string, log: seq<Call<T>>, log': seq<Call<T>>)
    requires NamesItself(x.g, token) && |log| == |log'|
    ensures SameReply(Respond(x, r, raw, log), Respond(x.(g := Muted(x.g, token)), r, raw, log'))
  {
    hide DecodeToken, EncodeToken, Scan, NamesItself, Muted, Unique, IdSet;
    var y := x.(g := Muted(x.g, token));
    if DecodeToken(raw, x.kind, x.query).Accepted? {
      ScanMuted(x.g, token, LimitOf(x, r), BatchOf(x, r), r.deadline, Opening(x, raw, log), Opening(y, raw, log'));
    }
  }

  ghost predicate SameReplies<T>(a: seq<Reply<T>>, b: seq<Reply<T>>) {
    |a| == |b| && forall i :: 0 <= i < |a| ==> SameReply(a[i], b[i])
  }

  lemma {:induction false} SameSoFar<T>(a: seq<Reply<T>>, b: seq<Reply<T>>)
    requires SameReplies(a, b)
    ensures AllIds(a) == AllIds(b) && LastToken(a) == LastToken(b) && Over(a) == Over(b)
    ensures |LastLog(a)| == |LastLog(b)|
  {
    if a != [] {
      var n := |a| - 1;
      assert SameReply(a[n], b[n]);
      forall i | 0 <= i < n ensures SameReply(a[..n][i], b[..n][i]) {
        assert SameReply(a[i], b[i]);
      }
      SameSoFar(a[..n], b[..n]);
    }
  }

  /** A run over the mailbox is, up to the call history, a run over the muted one. */
  lemma {:induction false} MutedRun<T>(x: Context<T>, token: string, rs: seq<Request>, replies: seq<Reply<T>>)
    returns (muted: seq<Reply<T>>)
    requires NamesItself(x.g, token) && IsRun(x, rs, replies)
    ensures IsRun(x.(g := Muted(x.g, token)), rs, muted) && SameReplies(replies, muted)
    decreases |rs|
  {
    hide Respond, NamesItself, Muted, Over, LastToken, LastLog;
    muted := [];
    if rs != [] {
      var y, n := x.(g := Muted(x.g, token)), |rs| - 1;
      var init := replies[..n];
      RunInit(x, rs, replies);
      var before := MutedRun(x, token, rs[..n], init);
      SameSoFar(init, before);
      RespondMuted(x, token, rs[n], LastToken(init), LastLog(init), LastLog(before));
      muted := before + [Respond(y, rs[n], LastToken(before), LastLog(before))];
      forall i | 0 <= i <= n ensures Continues(y, rs, muted, i) && SameReply(replies[i], muted[i]) {
        assert muted[..i] == before[..i];
        if i < n {
          assert Continues(y, rs[..n], before, i) && SameReply(init[i], before[i]);
        } else {
          assert before[..i] == before;
        }
      }
    }
  }

  // ---- what such a search gives --------------------------------------------------------

  /** A last page adds nothing exactly when its visible ids are listed before. */
  lemma NothingAdded(vis: string -> bool, init: seq<Entry>, page: seq<Entry>)
    ensures Expected(vis, init + page) == Expected(vis, init)
            <==> forall id :: id != "" && vis(id) && ListsId(page, id) ==> ListsId(init, id)
  {
    hide Text.Trim, ListsId, OccursBefore, Distinct;
    ExpectedConcat(vis, init, page);
    ExpectedIsFirstOccurrences(vis, init);
    ExpectedIsFirstOccurrences(vis, init + page);
    forall id | id != "" && ListsId(page, id) ensures ListsId(init + page, id) {
      ListedLater(init, page, id);
    }
    if forall id :: id != "" && vis(id) && ListsId(page, id) ==> ListsId(init, id) {
      forall id | id in IdSet(Extract(page)) && vis(id) ensures id in Expected(vis, init) {
        ExtractLists(page, id);
      }
      NothingNew(vis, Extract(page), Expected(vis, init));
    }
  }

  lemma ListedLater(init: seq<Entry>, page: seq<Entry>, id: string)
    requires ListsId(page, id)
    ensures ListsId(init + page, id)
  {
    hide Text.Trim;
    var e :| e in page && e.Entry? && Trim(e.id) == id;
    assert e in init + page;
  }

  /** Over a chain whose last page names itself, every answer with a successor is
      full, and a run returns a prefix of the first occurrences over the pages before that one, a finished run all of
      them. So a finished run is complete if and only if every visible id of the
      last page is also on an earlier page. */
  lemma SelfLoopRun<T>(x: Context<T>, c: Chain, vis: string -> bool, rs: seq<Request>, replies: seq<Reply<T>>)
    requires ServesLoop(x.g, c, vis) && IsRun(x, rs, replies)
    ensures AllIds(replies) <= Expected(vis, Before(c))
    ensures Over(replies) ==>
              && AllIds(replies) == Expected(vis, Before(c))
              && (FirstOccurrences(vis, Flatten(c.pages), AllIds(replies)) <==> LastPageRepeats(c, vis))
    ensures forall i :: 0 <= i < |replies| && replies[i].Answer? && replies[i].next != "" ==>
              |replies[i].ids| == LimitOf(x, rs[i])
  {
    hide Respond, NamesItself, Muted, Serves, Expected, FirstOccurrences;
    var token := c.tokens[|c.tokens| - 1];
    var y, c' := x.(g := Muted(x.g, token)), MutedChain(c);
    var muted := MutedRun(x, token, rs, replies);
    SameSoFar(replies, muted);
    MutedServes(x.g, c, vis);
    ChainServes(y.g, c', vis);
    WholeRunRefines(y, MailboxOf(c', vis), rs, muted);
    forall i | 0 <= i < |replies| && replies[i].Answer? && replies[i].next != "" ensures |replies[i].ids| == LimitOf(x, rs[i]) {
      assert SameReply(replies[i], muted[i]) && FullReply(y, rs[i], muted[i]);
    }
    ExpectedIsFirstOccurrences(vis, Before(c));
    var all :| FirstOccurrences(vis, Before(c), all) && AllIds(muted) <= all
               && (Over(muted) ==> AllIds(muted) == all);
    FirstOccurrencesUnique(vis, Before(c), all, Expected(vis, Before(c)));
    ExpectedIsFirstOccurrences(vis, Flatten(c.pages));
    NothingAdded(vis, Before(c), c.pages[|c.pages| - 1]);
    if FirstOccurrences(vis, Flatten(c.pages), AllIds(replies)) {
      FirstOccurrencesUnique(vis, Flatten(c.pages), AllIds(replies), Expected(vis, Flatten(c.pages)));
    }
  }

  /** ... and if no call fails every request of such a run can be answered. */
  lemma SelfLoopEnds<T>(x: Context<T>, c: Chain, vis: string -> bool, rs: seq<Request>, replies: seq<Reply<T>>, limit: int)
    requires ServesLoop(x.g, c, vis) && IsRun(x, rs, replies) && !Over(replies)
    requires Reliable(x.g, MailboxOf(MutedChain(c), vis))
    ensures exists deadline: nat :: Respond(x, Request(limit, deadline), LastToken(replies), LastLog(replies)).Answer?
  {
    hide Respond, Muted, NamesItself, ServesChain, LastPageClear, Reliable;
    var token := c.tokens[|c.tokens| - 1];
    var y, c' := x.(g := Muted(x.g, token)), MutedChain(c);
    var muted := MutedRun(x, token, rs, replies);
    SameSoFar(replies, muted);
    MutedServes(x.g, c, vis);
    MutedReliable(x.g, token, MailboxOf(c', vis));
    NextRequestTerminates(y, c', vis, rs, muted, limit);
    var deadline: nat :| Respond(y, Request(limit, deadline), LastToken(muted), LastLog(muted)).Answer?;
    RespondMuted(x, token, Request(limit, deadline), LastToken(replies), LastLog(replies), LastLog(muted));
  }

  /** The smallest instance: the second page holds a visible id, which is not returned. */
  lemma SelfLoopDropsPage()
    ensures var g: Gmail<int> := Gmail((n, b, t) => if t == "" then Page([Entry("a")], "p") else Page([Entry("b")], "p"),
                                       (n, id) => Visible(0));
            var o := Scan(g, 2, 1, 100, Start([], [], "", []));
            o.Done? && o.end.returned == ["a"] && o.end.pending == [] && o.end.token == ""
  {
    var g: Gmail<int> := Gmail((n, b, t) => if t == "" then Page([Entry("a")], "p") else Page([Entry("b")], "p"),
                               (n, id) => Visible(0));
    var s: Loop<int> := Start([], [], "", []);
    assert !IsSpace('a') && !IsSpace('p') && Trimmed("a") && Trimmed("p");
    assert s == Loop([], [], {}, "", [], []);
    ExtractOne(Entry("a"));
    assert Unique(["a"], {}) == ["a"] by { assert ["a"][1..] == []; }
    var s1 := Turn(g, 1, 100, s).state;
    assert s1.pending == [] && s1.returned == ["a"] && s1.token == "p" && |s1.found| == 1;
    assert Turn(g, 1, 100, s1).Leave?;
  }
}
