/** Safety of the search loop against an arbitrary Gmail: repeated, cyclic or
    overlapping pages, and a mailbox that changes between calls. */
module SearchSafety {
  import opened Lists
  import opened Text
  import opened Search

  ghost predicate IsId(id: string) {
    id != "" && Trim(id) == id
  }

  /** Trimmed, non-blank ids, each once and none of them excluded. */
  ghost predicate Clean(ids: seq<string>, excluded: set<string>) {
    (forall i :: 0 <= i < |ids| ==> IsId(ids[i]) && ids[i] !in excluded) && Distinct(ids)
  }

  /** The invariant of every reachable loop state, where `r0` are the returned
      ids that the request's cursor claimed. */
  ghost predicate Tidy<T>(s: Loop<T>, r0: seq<string>) {
    && Clean(s.pending, s.seen)
    && r0 <= s.returned
    && Clean(s.returned[|r0|..], IdSet(r0))
    && s.seen == IdSet(s.returned)
    && Trim(s.token) == s.token
    && |s.found| <= |s.returned| - |r0|
  }

  /** The log holds what Gmail answered, call by call. */
  ghost predicate Genuine<T>(g: Gmail<T>, log: seq<Call<T>>, from: nat) {
    forall t :: from <= t < |log| ==> AnsweredBy(g, t, log[t])
  }

  ghost predicate AnsweredBy<T>(g: Gmail<T>, t: nat, call: Call<T>) {
    match call
    case Listed(batch, token, reply) => reply == g.list(t, batch, token)
    case Checked(id, verdict) => verdict == g.check(t, id)
  }

  ghost predicate ListsId(entries: seq<Entry>, id: string) {
    exists e :: e in entries && e.Entry? && Trim(e.id) == id
  }

  ghost predicate Offered<T>(log: seq<Call<T>>, id: string) {
    exists t :: 0 <= t < |log| && log[t].Listed? && log[t].reply.Page? && ListsId(log[t].reply.entries, id)
  }

  ghost predicate Passed<T>(log: seq<Call<T>>, id: string, item: T) {
    exists t :: 0 <= t < |log| && log[t] == Checked(id, Visible(item))
  }

  /** Every id in play came from a fetched page, and every collected item is
      what the visibility check of its id gave. */
  ghost predicate Backed<T>(s: Loop<T>, r0: seq<string>) {
    && |s.found| <= |s.returned| - |r0|
    && (forall id :: id in s.pending ==> Offered(s.log, id))
    && (forall i :: |r0| <= i < |s.returned| ==> Offered(s.log, s.returned[i]))
    && (forall i :: 0 <= i < |s.found| ==> Passed(s.log, s.returned[|s.returned| - |s.found| + i], s.found[i]))
  }

  lemma LetterIsId()
    ensures IsId("a")
  {
    assert !IsSpace('a') && Trimmed("a");
  }

  // ---- id lists --------------------------------------------------------------

  lemma {:induction false} UniqueClean(ids: seq<string>, seen: set<string>)
    ensures Clean(Unique(ids, seen), seen)
  {
    hide Text.Trim;
    if ids != [] {
      var id := Trim(ids[0]);
      TrimTwice(ids[0]);
      if Blank(ids[0]) || id in seen {
        UniqueClean(ids[1..], seen);
      } else {
        UniqueClean(ids[1..], seen + {id});
        var rest := Unique(ids[1..], seen + {id});
        assert Unique(ids, seen) == [id] + rest;
        assert forall i :: 0 <= i < |rest| ==> rest[i] != id;
      }
    }
  }

  lemma IdSetFirst(ids: seq<string>)
    requires ids != []
    ensures IdSet(ids) == (if Blank(ids[0]) then {} else {Trim(ids[0])}) + IdSet(ids[1..])
  {
    hide Text.Trim;
    assert ids == [ids[0]] + ids[1..];
  }

  lemma {:induction false} UniqueMembers(ids: seq<string>, seen: set<string>, x: string)
    ensures x in Unique(ids, seen) <==> x in IdSet(ids) && x !in seen
  {
    hide Text.Trim, IdSet;
    if ids == [] {
      assert IdSet(ids) == {} by { NoIds(); }
    } else {
      IdSetFirst(ids);
      UniqueMembers(ids[1..], seen, x);
      UniqueMembers(ids[1..], seen + {Trim(ids[0])}, x);
    }
  }

  lemma NoIds()
    ensures IdSet([]) == {}
  {}

  /** The result holds each id that is not excluded once, trimmed. */
  lemma UniqueIsClean(ids: seq<string>, seen: set<string>)
    ensures Clean(Unique(ids, seen), seen)
    ensures forall x :: x in Unique(ids, seen) <==> x in IdSet(ids) && x !in seen
  {
    hide Text.Trim, Unique, IdSet, Clean;
    UniqueClean(ids, seen);
    forall x ensures x in Unique(ids, seen) <==> x in IdSet(ids) && x !in seen {
      UniqueMembers(ids, seen, x);
    }
  }

  lemma {:induction false} UniqueOfClean(ids: seq<string>, seen: set<string>)
    requires Clean(ids, seen)
    ensures Unique(ids, seen) == ids
  {
    hide Text.Trim;
    if ids != [] {
      UniqueOfClean(ids[1..], seen + {ids[0]});
    }
  }

  lemma {:induction false} ExtractLists(entries: seq<Entry>, id: string)
    ensures id in IdSet(Extract(entries)) <==> id != "" && ListsId(entries, id)
  {
    hide Text.Trim;
    if entries != [] {
      var rest := entries[1..];
      ExtractLists(rest, id);
      assert entries == [entries[0]] + rest;
      var head: seq<string> := if entries[0].Absent? || Blank(entries[0].id) then [] else [entries[0].id];
      assert Extract(entries) == head + Extract(rest);
      assert IdSet(Extract(entries)) == IdSet(head) + IdSet(Extract(rest));
      assert ListsId(entries, id) <==> (entries[0].Entry? && Trim(entries[0].id) == id) || ListsId(rest, id);
    }
  }

  lemma IdSetAppend(ids: seq<string>, id: string)
    requires IsId(id)
    ensures IdSet(ids + [id]) == IdSet(ids) + {id}
  {
    assert id in ids + [id];
    forall x | x in IdSet(ids) + {id} ensures x in IdSet(ids + [id]) {
      if x in IdSet(ids) {
        var y :| y in ids && !Blank(y) && Trim(y) == x;
        assert y in ids + [id];
      }
    }
  }

  /** In a run from the first page, the returned set is the returned list, and
      the list holds every id once. */
  lemma SeenIsReturned<T>(s: Loop<T>)
    requires Tidy(s, [])
    ensures Clean(s.returned, {})
    ensures forall x :: x in s.seen <==> x in s.returned
  {
    hide Text.Trim;
    var none: seq<string> := [];
    assert s.returned[|none|..] == s.returned;
    assert forall x :: x in s.returned ==> IsId(x);
  }

  // ---- one turn --------------------------------------------------------------

  lemma LogGrowth<T>(log: seq<Call<T>>, more: seq<Call<T>>)
    requires log <= more
    ensures forall id :: Offered(log, id) ==> Offered(more, id)
    ensures forall id, item: T :: Passed(log, id, item) ==> Passed(more, id, item)
  {
    hide Text.Trim;
    forall id | Offered(log, id) ensures Offered(more, id) {
      var t :| 0 <= t < |log| && log[t].Listed? && log[t].reply.Page? && ListsId(log[t].reply.entries, id);
      assert more[t] == log[t];
    }
    forall id, item: T | Passed(log, id, item) ensures Passed(more, id, item) {
      var t :| 0 <= t < |log| && log[t] == Checked(id, Visible(item));
      assert more[t] == log[t];
    }
  }

  /** The state that a fetched page leaves before its first id is looked at. */
  function Refilled<T>(s: Loop<T>, batch: nat, reply: ListReply): Loop<T>
    requires reply.Page?
  {
    s.(pending := Unique(Extract(reply.entries), s.seen), token := Trim(reply.next),
       log := s.log + [Listed(batch, s.token, reply)])
  }

  lemma RefillKeeps<T>(g: Gmail<T>, s: Loop<T>, batch: nat, r0: seq<string>)
    requires g.list(|s.log|, batch, s.token).Page?
    ensures var s' := Refilled(s, batch, g.list(|s.log|, batch, s.token));
            && (Tidy(s, r0) ==> Tidy(s', r0))
            && (s.pending == [] && Backed(s, r0) ==> Backed(s', r0))
            && Clean(s'.pending, s'.seen)
  {
    hide Text.Trim;
    var reply := g.list(|s.log|, batch, s.token);
    var s' := Refilled(s, batch, reply);
    UniqueIsClean(Extract(reply.entries), s.seen);
    TrimTwice(reply.next);
    LogGrowth(s.log, s'.log);
    forall id | id in s'.pending ensures Offered(s'.log, id) {
      ExtractLists(reply.entries, id);
      assert s'.log[|s.log|].reply == reply;
    }
  }

  lemma PopClean<T>(g: Gmail<T>, deadline: nat, s: Loop<T>)
    requires s.pending != [] && Clean(s.pending, s.seen) && Pop(g, deadline, s).Again?
    ensures var s' := Pop(g, deadline, s).state;
            Clean(s'.pending, s'.seen) && |s'.log| > |s.log|
  {
    hide Text.Trim;
    assert IsId(s.pending[0]);
  }

  lemma PopTidy<T>(g: Gmail<T>, deadline: nat, s: Loop<T>, r0: seq<string>)
    requires s.pending != [] && Pop(g, deadline, s).Again? && Tidy(s, r0)
    ensures Tidy(Pop(g, deadline, s).state, r0)
  {
    hide Text.Trim;
    var s' := Pop(g, deadline, s).state;
    var id := s.pending[0];
    PopClean(g, deadline, s);
    assert IsId(id);
    if s'.found != s.found {
      IdSetAppend(s.returned, id);
      var mine := s.returned[|r0|..];
      assert s'.returned[|r0|..] == mine + [id];
      assert s.returned == r0 + mine;
      assert IdSet(r0) <= IdSet(s.returned);
      forall i | 0 <= i < |mine| ensures mine[i] != id {
        assert IsId(mine[i]);
        assert s.returned[|r0| + i] == mine[i];
        assert mine[i] in s.returned && !Blank(mine[i]);
        assert mine[i] in IdSet(s.returned);
      }
    }
  }

  lemma PopBacked<T>(g: Gmail<T>, deadline: nat, s: Loop<T>, r0: seq<string>)
    requires s.pending != [] && Pop(g, deadline, s).Again? && Backed(s, r0)
    ensures Backed(Pop(g, deadline, s).state, r0)
  {
    hide Text.Trim;
    var s' := Pop(g, deadline, s).state;
    var id := s.pending[0];
    LogGrowth(s.log, s'.log);
    assert Offered(s'.log, id);
    if s'.found != s.found {
      assert s'.log[|s.log|] == Checked(id, Visible(s'.found[|s.found|]));
      assert Passed(s'.log, id, s'.found[|s.found|]);
      assert |s'.returned| - |s'.found| == |s.returned| - |s.found|;
    }
  }

  /** `n` goes on from `s`, or leaves the loop, with the invariant kept: the history
      is extended, and the returned list grows by exactly what is collected. */
  ghost predicate Keeps<T>(s: Loop<T>, n: Next<T>, r0: seq<string>) {
    !n.Fail? ==>
      && Tidy(n.state, r0) && (Backed(s, r0) ==> Backed(n.state, r0))
      && s.log <= n.state.log && s.returned <= n.state.returned
      && |n.state.found| - |s.found| == |n.state.returned| - |s.returned| <= 1
      && (n.Leave? ==> n.state.returned == s.returned && n.state.pending == [] && n.state.token == "")
  }

  lemma PopKeeps<T>(g: Gmail<T>, deadline: nat, s: Loop<T>, r0: seq<string>)
    requires Tidy(s, r0) && s.pending != []
    ensures Keeps(s, Pop(g, deadline, s), r0) && !Pop(g, deadline, s).Leave?
  {
    hide Text.Trim, Tidy, Backed;
    if Pop(g, deadline, s).Again? {
      PopTidy(g, deadline, s, r0);
      if Backed(s, r0) { PopBacked(g, deadline, s, r0); }
    }
  }

  /** A turn keeps the invariant. */
  lemma TurnKeeps<T>(g: Gmail<T>, batch: nat, deadline: nat, s: Loop<T>, r0: seq<string>)
    requires Tidy(s, r0)
    ensures Keeps(s, Turn(g, batch, deadline, s), r0)
  {
    hide Text.Trim, Offered, Passed, Extract, Unique, IdSet, Distinct, Pop, Clean;
    if s.pending != [] {
      PopKeeps(g, deadline, s, r0);
    } else if |s.log| < deadline && g.list(|s.log|, batch, s.token).Page? {
      var s1 := Refilled(s, batch, g.list(|s.log|, batch, s.token));
      RefillKeeps(g, s, batch, r0);
      TrimEmpty();
      if s1.pending != [] { PopKeeps(g, deadline, s1, r0); }
    }
  }

  lemma TurnGenuine<T>(g: Gmail<T>, batch: nat, deadline: nat, s: Loop<T>, from: nat)
    requires Genuine(g, s.log, from)
    ensures var n := Turn(g, batch, deadline, s);
            var log := if n.Fail? then n.log else n.state.log;
            s.log <= log && Genuine(g, log, from)
  {
    hide Text.Trim, Extract, Unique;
  }

  /** The blank and already-returned guards inside the loop are never taken: from
      any decoded cursor, every turn that goes on makes a Gmail call. */
  lemma EveryTurnCalls<T>(g: Gmail<T>, batch: nat, deadline: nat, s: Loop<T>)
    requires Clean(s.pending, s.seen)
    ensures var n := Turn(g, batch, deadline, s);
            n.Again? ==> |n.state.log| > |s.log| && Clean(n.state.pending, n.state.seen)
  {
    hide Text.Trim;
    if s.pending != [] {
      assert IsId(s.pending[0]);
      if Pop(g, deadline, s).Again? { PopClean(g, deadline, s); }
    } else if |s.log| < deadline && g.list(|s.log|, batch, s.token).Page? {
      var reply := g.list(|s.log|, batch, s.token);
      RefillKeeps(g, s, batch, []);
      var s1 := Refilled(s, batch, reply);
      if s1.pending != [] {
        assert IsId(s1.pending[0]);
        if Pop(g, deadline, s1).Again? { PopClean(g, deadline, s1); }
      }
    }
  }

  // ---- the loop --------------------------------------------------------------

  function Turns<T>(g: Gmail<T>, limit: nat, batch: nat, deadline: nat, s: Loop<T>): nat
    decreases CallsLeft(deadline, s), |s.pending|
  {
    if |s.found| >= limit then 0
    else match Turn(g, batch, deadline, s)
      case Again(s') => 1 + Turns(g, limit, batch, deadline, s')
      case _ => 1
  }

  lemma {:induction false} TurnsBounded<T>(g: Gmail<T>, limit: nat, batch: nat, deadline: nat, s: Loop<T>)
    requires Clean(s.pending, s.seen)
    ensures Turns(g, limit, batch, deadline, s) <= CallsLeft(deadline, s) + 1
    decreases CallsLeft(deadline, s), |s.pending|
  {
    hide Text.Trim, Extract, Unique, Clean;
    if |s.found| < limit {
      EveryTurnCalls(g, batch, deadline, s);
      var n := Turn(g, batch, deadline, s);
      if n.Again? { TurnsBounded(g, limit, batch, deadline, n.state); }
    }
  }

  /** Whatever cursor a client sends, the loop never makes more turns than Gmail
      calls are left, and a last one. */
  lemma OneCallPerTurn<T>(g: Gmail<T>, limit: nat, batch: nat, deadline: nat,
                          pending: seq<string>, returned: seq<string>, token: string, log: seq<Call<T>>)
    ensures var s := Start(pending, returned, token, log);
            Turns(g, limit, batch, deadline, s) <= CallsLeft(deadline, s) + 1
  {
    hide Text.Trim, Turns, IdSet;
    UniqueIsClean(pending, IdSet(returned));
    TurnsBounded(g, limit, batch, deadline, Start(pending, returned, token, log));
  }

  /** Filtering the pending ids again when a cursor comes back changes nothing. */
  lemma StartOfTidy<T>(s: Loop<T>, r0: seq<string>)
    requires Tidy(s, r0)
    ensures Start(s.pending, s.returned, s.token, s.log) == s.(found := [])
  {
    hide Text.Trim;
    UniqueOfClean(s.pending, s.seen);
  }

  /** Every turn that goes on makes a call or takes a pending id. */
  lemma TurnDecreases<T>(g: Gmail<T>, batch: nat, deadline: nat, s: Loop<T>)
    requires Turn(g, batch, deadline, s).Again?
    ensures var s' := Turn(g, batch, deadline, s).state;
            CallsLeft(deadline, s') < CallsLeft(deadline, s)
            || (CallsLeft(deadline, s') == CallsLeft(deadline, s) && |s'.pending| < |s.pending|)
  {
    hide Text.Trim, Extract, Unique;
  }

  lemma {:induction false} ScanSafe<T>(g: Gmail<T>, limit: nat, batch: nat, deadline: nat, s: Loop<T>, r0: seq<string>)
    requires Tidy(s, r0) && |s.found| <= limit
    ensures var o := Scan(g, limit, batch, deadline, s);
            o.Done? ==>
              && Tidy(o.end, r0) && (Backed(s, r0) ==> Backed(o.end, r0))
              && s.log <= o.end.log && s.returned <= o.end.returned
              && |o.end.found| - |s.found| == |o.end.returned| - |s.returned|
              && |o.end.found| <= limit
              && (|o.end.found| < limit ==> o.end.pending == [] && o.end.token == "")
    decreases CallsLeft(deadline, s), |s.pending|
  {
    hide Text.Trim, Turn, Tidy, Backed;
    if |s.found| < limit {
      TurnKeeps(g, batch, deadline, s, r0);
      var n := Turn(g, batch, deadline, s);
      if n.Again? {
        TurnDecreases(g, batch, deadline, s);
        ScanSafe(g, limit, batch, deadline, n.state, r0);
      }
    }
  }

  lemma {:induction false} ScanGenuine<T>(g: Gmail<T>, limit: nat, batch: nat, deadline: nat, s: Loop<T>, from: nat)
    requires Genuine(g, s.log, from)
    ensures var o := Scan(g, limit, batch, deadline, s);
            var log := if o.Done? then o.end.log else o.log;
            s.log <= log && Genuine(g, log, from)
    decreases CallsLeft(deadline, s), |s.pending|
  {
    hide Text.Trim, Turn, Genuine;
    if |s.found| < limit {
      TurnGenuine(g, batch, deadline, s, from);
      var n := Turn(g, batch, deadline, s);
      if n.Again? {
        TurnDecreases(g, batch, deadline, s);
        ScanGenuine(g, limit, batch, deadline, n.state, from);
      }
    }
  }

  // ---- what is collected -----------------------------------------------------

  /** What was collected is what the visibility checks of the ids returned last gave,
      in this very history. */
  ghost predicate AllPassed<T>(s: Loop<T>) {
    |s.found| <= |s.returned| &&
    forall i :: 0 <= i < |s.found| ==> Passed(s.log, s.returned[|s.returned| - |s.found| + i], s.found[i])
  }

  lemma PopPasses<T>(g: Gmail<T>, deadline: nat, s: Loop<T>)
    requires AllPassed(s) && s.pending != []
    ensures var n := Pop(g, deadline, s);
            !n.Leave? && (n.Again? ==> AllPassed(n.state) && s.returned <= n.state.returned
                                       && |n.state.returned| - |s.returned| == |n.state.found| - |s.found|)
  {
    hide Text.Trim, Passed;
    var n := Pop(g, deadline, s);
    if n.Again? {
      LogGrowth(s.log, n.state.log);
      if n.state.found != s.found {
        assert n.state.log[|s.log|] == Checked(s.pending[0], Visible(n.state.found[|s.found|]));
        LastPasses(n.state.log, s.pending[0], n.state.found[|s.found|]);
      }
    }
  }

  lemma LastPasses<T>(log: seq<Call<T>>, id: string, item: T)
    requires log != [] && log[|log| - 1] == Checked(id, Visible(item))
    ensures Passed(log, id, item)
  {}

  lemma TurnPasses<T>(g: Gmail<T>, batch: nat, deadline: nat, s: Loop<T>)
    requires AllPassed(s)
    ensures var n := Turn(g, batch, deadline, s);
            !n.Fail? ==> AllPassed(n.state) && s.returned <= n.state.returned
                         && |n.state.returned| - |s.returned| == |n.state.found| - |s.found|
  {
    hide Text.Trim, Extract, Unique, Pop, Passed;
    if s.pending != [] {
      PopPasses(g, deadline, s);
    } else if |s.log| < deadline && g.list(|s.log|, batch, s.token).Page? {
      var s1 := Refilled(s, batch, g.list(|s.log|, batch, s.token));
      LogGrowth(s.log, s1.log);
      if s1.pending != [] { PopPasses(g, deadline, s1); }
    }
  }

  /** Whatever cursor a client sends, everything a search collects was checked in
      this very request, for the id that is returned with it. */
  lemma {:induction false} ScanPasses<T>(g: Gmail<T>, limit: nat, batch: nat, deadline: nat, s: Loop<T>)
    requires AllPassed(s)
    ensures var o := Scan(g, limit, batch, deadline, s);
            o.Done? ==> AllPassed(o.end) && s.returned <= o.end.returned
                        && |o.end.returned| - |s.returned| == |o.end.found| - |s.found|
    decreases CallsLeft(deadline, s), |s.pending|
  {
    hide Text.Trim, Turn, AllPassed;
    if |s.found| < limit {
      TurnPasses(g, batch, deadline, s);
      var n := Turn(g, batch, deadline, s);
      if n.Again? {
        TurnDecreases(g, batch, deadline, s);
        ScanPasses(g, limit, batch, deadline, n.state);
      }
    }
  }

  // ---- failures --------------------------------------------------------------

  ghost predicate FailedWith<T>(call: Call<T>, fault: Fault) {
    match call
    case Listed(_, _, reply) => reply == ListFault(fault)
    case Checked(_, verdict) => verdict == CheckFault(fault)
  }

  /** The deadline was reached, or the last call failed. */
  ghost predicate Faulted<T>(fault: Fault, deadline: nat, log: seq<Call<T>>) {
    (fault == DEADLINE && |log| >= deadline) || (log != [] && FailedWith(log[|log| - 1], fault))
  }

  /** A request fails only at its deadline or with its last call. */
  lemma {:induction false} ScanFaulted<T>(g: Gmail<T>, limit: nat, batch: nat, deadline: nat, s: Loop<T>)
    ensures var o := Scan(g, limit, batch, deadline, s); o.Failed? ==> Faulted(o.fault, deadline, o.log)
    decreases CallsLeft(deadline, s), |s.pending|
  {
    hide Text.Trim, Turn, Faulted;
    if |s.found| < limit {
      TurnFaulted(g, batch, deadline, s);
      var n := Turn(g, batch, deadline, s);
      if n.Again? {
        TurnDecreases(g, batch, deadline, s);
        ScanFaulted(g, limit, batch, deadline, n.state);
      }
    }
  }

  lemma TurnFaulted<T>(g: Gmail<T>, batch: nat, deadline: nat, s: Loop<T>)
    ensures var n := Turn(g, batch, deadline, s); n.Fail? ==> Faulted(n.fault, deadline, n.log)
  {
    hide Text.Trim, Extract, Unique;
  }

  /** What a request has collected stays backed as the history goes on. */
  lemma CollectedBacked<T>(s: Loop<T>, last: seq<Call<T>>, j: nat)
    requires Backed(s, []) && s.log <= last && j < |s.found|
    ensures Offered(last, s.returned[|s.returned| - |s.found| + j])
    ensures Passed(last, s.returned[|s.returned| - |s.found| + j], s.found[j])
  {
    LogGrowth(s.log, last);
  }
}
