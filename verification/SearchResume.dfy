/** A search cut in two: one request with limit `a`, resumed with limit `b`, is
    the same computation as one request with limit `a + b`. */
module SearchResume {
  import opened Text
  import opened Search
  import opened SearchSafety

  function Prepend<T>(first: seq<T>, o: Outcome<T>): Outcome<T> {
    if o.Done? then Done(o.end.(found := first + o.end.found)) else o
  }

  /** The loop looks at what it has collected only to count it. */
  lemma {:induction false} ScanIgnoresCollected<T>(g: Gmail<T>, b: nat, batch: nat, deadline: nat,
                                                    first: seq<T>, s: Loop<T>)
    ensures Scan(g, |first| + b, batch, deadline, s.(found := first + s.found))
         == Prepend(first, Scan(g, b, batch, deadline, s))
    decreases CallsLeft(deadline, s), |s.pending|
  {
    hide Text.Trim;
    var s' := s.(found := first + s.found);
    if |s.found| < b {
      var n, n' := Turn(g, batch, deadline, s), Turn(g, batch, deadline, s');
      if n.Again? {
        assert first + n.state.found == n'.state.found;
        assert n'.state == n.state.(found := first + n.state.found);
        ScanIgnoresCollected(g, b, batch, deadline, first, n.state);
      }
    }
  }

  /** A loop that stops at limit `a` is a prefix of the loop with a higher limit. */
  lemma {:induction false} ScanPassesThrough<T>(g: Gmail<T>, a: nat, b: nat, batch: nat, deadline: nat, s: Loop<T>)
    requires Scan(g, a, batch, deadline, s).Done?
    requires |Scan(g, a, batch, deadline, s).end.found| >= a
    ensures Scan(g, a + b, batch, deadline, s) == Scan(g, a + b, batch, deadline, Scan(g, a, batch, deadline, s).end)
    decreases CallsLeft(deadline, s), |s.pending|
  {
    hide Text.Trim;
    if |s.found| < a {
      var n := Turn(g, batch, deadline, s);
      assert !n.Leave?;
      ScanPassesThrough(g, a, b, batch, deadline, n.state);
    }
  }

  lemma SplitAndResume<T>(g: Gmail<T>, a: nat, b: nat, batch: nat, deadline: nat, s: Loop<T>, r0: seq<string>)
    requires Tidy(s, r0) && s.found == []
    requires Scan(g, a, batch, deadline, s).Done?
    requires var e := Scan(g, a, batch, deadline, s).end; e.pending != [] || e.token != ""
    ensures var e := Scan(g, a, batch, deadline, s).end;
            var resumed := Start(e.pending, e.returned, e.token, e.log);
            Scan(g, a + b, batch, deadline, s) == Prepend(e.found, Scan(g, b, batch, deadline, resumed))
  {
    hide Text.Trim, Extract, Unique, Tidy, Turn, Scan;
    var e := Scan(g, a, batch, deadline, s).end;
    ScanSafe(g, a, batch, deadline, s, r0);
    ScanPassesThrough(g, a, b, batch, deadline, s);
    StartOfTidy(e, r0);
    ScanIgnoresCollected(g, b, batch, deadline, e.found, e.(found := []));
    assert e.(found := []).(found := e.found + []) == e;
  }
}
