/** The paged, filtered search loop shared by message search and thread search
    (internal/broker/server.go). It reads Gmail's pages, drops the ids the
    policy hides and the ids already returned, and stops at a limit.

    Gmail is an oracle: what it answers may depend in any way on how many calls
    were made before, so a mailbox that changes between two calls is included.
    `T` is what the caller collects: message metadata or a thread summary. */
module Search {
  import opened Text

  /** An element of a Gmail result page; Go allows a nil pointer there. */
  datatype Entry = Absent | Entry(id: string)

  /** The error code that `mapGmailError` gives to a failed call. */
  datatype Fault = Fault(code: string)

  datatype ListReply = Page(entries: seq<Entry>, next: string) | ListFault(fault: Fault)

  datatype Verdict<T> = Visible(item: T) | Hidden | CheckFault(fault: Fault)

  /** `list(n, batch, token)` and `check(n, id)` answer the call that follows `n` others. */
  datatype Gmail<T> = Gmail(list: (nat, nat, string) -> ListReply, check: (nat, string) -> Verdict<T>)

  datatype Call<T> =
    | Listed(batch: nat, token: string, reply: ListReply)
    | Checked(id: string, verdict: Verdict<T>)

  /** The variables of the loop; `log` is the history of Gmail calls. */
  datatype Loop<T> = Loop(pending: seq<string>, returned: seq<string>, seen: set<string>,
                          token: string, found: seq<T>, log: seq<Call<T>>)

  datatype Outcome<T> = Done(end: Loop<T>) | Failed(fault: Fault, log: seq<Call<T>>)

  /** One turn of the loop: go on, leave by `break`, or give an error response. */
  datatype Next<T> = Again(state: Loop<T>) | Leave(state: Loop<T>) | Fail(fault: Fault, log: seq<Call<T>>)

  /** The request context has expired; `deadline` is the number of calls that are answered before. */
  const DEADLINE := Fault("gmail_api_error")

  // ---- id lists --------------------------------------------------------------

  function Extract(entries: seq<Entry>): seq<string> {
    if entries == [] then []
    else if entries[0].Absent? || Blank(entries[0].id) then Extract(entries[1..])
    else [entries[0].id] + Extract(entries[1..])
  }

  function IdSet(ids: seq<string>): set<string> {
    set id | id in ids && !Blank(id) :: Trim(id)
  }

  function Unique(ids: seq<string>, seen: set<string>): seq<string> {
    if ids == [] then []
    else if Blank(ids[0]) || Trim(ids[0]) in seen then Unique(ids[1..], seen)
    else [Trim(ids[0])] + Unique(ids[1..], seen + {Trim(ids[0])})
  }

  method ExtractIDs(entries: seq<Entry>) returns (ids: seq<string>)
    ensures ids == Extract(entries)
  {
    ids := [];
    for i := 0 to |entries|
      invariant ids + Extract(entries[i..]) == Extract(entries)
    {
      assert entries[i..][1..] == entries[i + 1..];
      if entries[i].Absent? || Blank(entries[i].id) {
        continue;
      }
      ids := ids + [entries[i].id];
    }
  }

  method MakeIDSet(ids: seq<string>) returns (ids': set<string>)
    ensures ids' == IdSet(ids)
  {
    ids' := {};
    for i := 0 to |ids|
      invariant ids' == IdSet(ids[..i])
    {
      assert ids[..i + 1] == ids[..i] + [ids[i]];
      var id := Trim(ids[i]);
      if id == "" {
        continue;
      }
      ids' := ids' + {id};
    }
    assert ids[..|ids|] == ids;
  }

  method UniqueIDsExcluding(ids: seq<string>, excluded: set<string>) returns (unique: seq<string>)
    ensures unique == Unique(ids, excluded)
  {
    var seen := excluded;
    unique := [];
    for i := 0 to |ids|
      invariant unique + Unique(ids[i..], seen) == Unique(ids, excluded)
    {
      assert ids[i..][1..] == ids[i + 1..];
      var id := Trim(ids[i]);
      if id == "" || id in seen {
        continue;
      }
      seen := seen + {id};
      unique := unique + [id];
    }
  }

  // ---- the loop --------------------------------------------------------------

  /** The second half of a turn: take the first pending id. */
  function Pop<T>(g: Gmail<T>, deadline: nat, s: Loop<T>): Next<T>
    requires s.pending != []
  {
    var id, rest := s.pending[0], s.pending[1..];
    if Blank(id) || id in s.seen then Again(s.(pending := rest))
    else if |s.log| >= deadline then Fail(DEADLINE, s.log)
    else
      var verdict := g.check(|s.log|, id);
      var log := s.log + [Checked(id, verdict)];
      match verdict
      case CheckFault(fault) => Fail(fault, log)
      case Hidden => Again(s.(pending := rest, log := log))
      case Visible(item) =>
        Again(s.(pending := rest, log := log, found := s.found + [item],
                 seen := s.seen + {id}, returned := s.returned + [id]))
  }

  function Turn<T>(g: Gmail<T>, batch: nat, deadline: nat, s: Loop<T>): Next<T> {
    if s.pending != [] then Pop(g, deadline, s)
    else if |s.log| >= deadline then Fail(DEADLINE, s.log)
    else
      var reply := g.list(|s.log|, batch, s.token);
      var log := s.log + [Listed(batch, s.token, reply)];
      match reply
      case ListFault(fault) => Fail(fault, log)
      case Page(entries, raw) =>
        var next := Trim(raw);
        if s.token != "" && next == s.token then Leave(s.(token := "", log := log))
        else
          var pending := Unique(Extract(entries), s.seen);
          if pending != [] then Pop(g, deadline, s.(pending := pending, token := next, log := log))
          else if Blank(next) || Trim(next) == Trim(s.token) then Leave(s.(token := "", log := log))
          else Again(s.(token := next, log := log))
  }

  function CallsLeft<T>(deadline: nat, s: Loop<T>): nat {
    if |s.log| < deadline then deadline - |s.log| else 0
  }

  /** The whole loop from state `s`. */
  function Scan<T>(g: Gmail<T>, limit: nat, batch: nat, deadline: nat, s: Loop<T>): Outcome<T>
    decreases CallsLeft(deadline, s), |s.pending|
  {
    if |s.found| >= limit then Done(s)
    else match Turn(g, batch, deadline, s)
      case Fail(fault, log) => Failed(fault, log)
      case Leave(s') => Done(s')
      case Again(s') => Scan(g, limit, batch, deadline, s')
  }

  /** What the loop starts from: the decoded cursor, with its pending ids filtered again. */
  function Start<T>(pending: seq<string>, returned: seq<string>, token: string, log: seq<Call<T>>): Loop<T> {
    var seen := IdSet(returned);
    Loop(Unique(pending, seen), returned, seen, token, [], log)
  }

  method SearchVisible<T>(g: Gmail<T>, limit: nat, batch: nat, deadline: nat,
                          cursorPending: seq<string>, cursorReturned: seq<string>, cursorToken: string,
                          log0: seq<Call<T>>)
    returns (outcome: Outcome<T>)
    ensures outcome == Scan(g, limit, batch, deadline, Start(cursorPending, cursorReturned, cursorToken, log0))
  {
    var returned := cursorReturned;
    var seen := MakeIDSet(returned);
    var pending := UniqueIDsExcluding(cursorPending, seen);
    var token := cursorToken;
    var log := log0;
    var found: seq<T> := [];
    ghost var s0 := Loop(pending, returned, seen, token, found, log);
    while |found| < limit
      invariant Scan(g, limit, batch, deadline, Loop(pending, returned, seen, token, found, log))
             == Scan(g, limit, batch, deadline, s0)
      decreases if |log| < deadline then deadline - |log| else 0, |pending|
    {
      if |pending| == 0 {
        var current := token;
        if |log| >= deadline {
          return Failed(DEADLINE, log);
        }
        var reply := g.list(|log|, batch, current);
        log := log + [Listed(batch, current, reply)];
        if reply.ListFault? {
          return Failed(reply.fault, log);
        }
        var next := Trim(reply.next);
        if current != "" && next == current {
          token := "";
          break;
        }
        var ids := ExtractIDs(reply.entries);
        pending := UniqueIDsExcluding(ids, seen);
        token := next;
        if |pending| == 0 {
          if Blank(token) || Trim(token) == Trim(current) {
            token := "";
            break;
          }
          continue;
        }
      }

      var id := pending[0];
      pending := pending[1..];
      if Blank(id) || id in seen {
        continue;
      }
      if |log| >= deadline {
        return Failed(DEADLINE, log);
      }
      var verdict := g.check(|log|, id);
      log := log + [Checked(id, verdict)];
      match verdict {
        case CheckFault(fault) =>
          return Failed(fault, log);
        case Hidden =>
        case Visible(item) =>
          found := found + [item];
          seen := seen + {id};
          returned := returned + [id];
      }
    }
    outcome := Done(Loop(pending, returned, seen, token, found, log));
  }

  // ---- limits ----------------------------------------------------------------

  const DEFAULT_SEARCH_LIMIT: nat := 20

  function NormalizeLimit(limit: int, max: int): (r: nat)
    ensures 1 <= r
    ensures r <= if max <= 0 then DEFAULT_SEARCH_LIMIT else max
    ensures 0 < limit <= (if max <= 0 then DEFAULT_SEARCH_LIMIT else max) ==> r == limit
    ensures limit <= 0 && r != DEFAULT_SEARCH_LIMIT ==> r == max < DEFAULT_SEARCH_LIMIT
    ensures limit > max > 0 ==> r == max
  {
    var max := if max <= 0 then DEFAULT_SEARCH_LIMIT else max;
    if limit <= 0 then (if DEFAULT_SEARCH_LIMIT < max then DEFAULT_SEARCH_LIMIT else max)
    else if limit > max then max
    else limit
  }

  function BatchSize(limit: int, max: int): (r: int)
    ensures 0 < limit <= max ==> limit <= r <= max
    ensures r <= if max <= 0 then DEFAULT_SEARCH_LIMIT else max
    ensures r > 0
    ensures DEFAULT_SEARCH_LIMIT <= limit <= max ==> r == limit
    ensures limit < DEFAULT_SEARCH_LIMIT <= max ==> r == DEFAULT_SEARCH_LIMIT
  {
    var max := if max <= 0 then DEFAULT_SEARCH_LIMIT else max;
    var limit := if limit < DEFAULT_SEARCH_LIMIT then DEFAULT_SEARCH_LIMIT else limit;
    if limit > max then max else limit
  }
}
