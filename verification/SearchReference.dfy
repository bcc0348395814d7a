/** What a search is for: the visible ids of the whole result list, each once,
    in the order of their first occurrence. */
module SearchReference {
  import opened Lists
  import opened Text
  import opened Search
  import opened SearchSafety

  function Collect(vis: string -> bool, ids: seq<string>, acc: seq<string>): seq<string>
    decreases |ids|
  {
    if ids == [] then acc
    else
      var id := Trim(ids[0]);
      Collect(vis, ids[1..], if id != "" && id !in acc && vis(id) then acc + [id] else acc)
  }

  function Expected(vis: string -> bool, all: seq<Entry>): seq<string> {
    Collect(vis, Extract(all), [])
  }

  lemma {:induction false} CollectConcat(vis: string -> bool, a: seq<string>, b: seq<string>, acc: seq<string>)
    ensures Collect(vis, a + b, acc) == Collect(vis, b, Collect(vis, a, acc))
  {
    hide Text.Trim;
    if a == [] {
      assert a + b == b;
    } else {
      assert (a + b)[1..] == a[1..] + b;
      var id := Trim(a[0]);
      CollectConcat(vis, a[1..], b, if id != "" && id !in acc && vis(id) then acc + [id] else acc);
    }
  }

  lemma {:induction false} CollectGrows(vis: string -> bool, ids: seq<string>, acc: seq<string>)
    ensures acc <= Collect(vis, ids, acc)
  {
    hide Text.Trim;
    if ids != [] {
      var id := Trim(ids[0]);
      CollectGrows(vis, ids[1..], if id != "" && id !in acc && vis(id) then acc + [id] else acc);
    }
  }

  lemma {:induction false} ExtractConcat(a: seq<Entry>, b: seq<Entry>)
    ensures Extract(a + b) == Extract(a) + Extract(b)
  {
    hide Text.Trim;
    if a == [] {
      assert a + b == b;
    } else {
      assert (a + b)[1..] == a[1..] + b;
      ExtractConcat(a[1..], b);
    }
  }

  lemma ExpectedConcat(vis: string -> bool, a: seq<Entry>, b: seq<Entry>)
    ensures Expected(vis, a + b) == Collect(vis, Extract(b), Expected(vis, a))
  {
    ExtractConcat(a, b);
    CollectConcat(vis, Extract(a), Extract(b), []);
  }

  lemma ExpectedGrows(vis: string -> bool, all: seq<Entry>, p: nat)
    requires p <= |all|
    ensures Expected(vis, all[..p]) <= Expected(vis, all)
  {
    assert all == all[..p] + all[p..];
    ExpectedConcat(vis, all[..p], all[p..]);
    CollectGrows(vis, Extract(all[p..]), Expected(vis, all[..p]));
  }

  /** Dropping repeated and already collected ids first does not change what is collected. */
  lemma {:induction false} CollectUnique(vis: string -> bool, ids: seq<string>, seen: set<string>, acc: seq<string>)
    requires forall x :: x in acc ==> x in seen
    requires forall x :: x in seen ==> x in acc || !vis(x)
    ensures Collect(vis, Unique(ids, seen), acc) == Collect(vis, ids, acc)
  {
    hide Text.Trim;
    if ids != [] {
      var id := Trim(ids[0]);
      if id == "" || id in seen {
        CollectUnique(vis, ids[1..], seen, acc);
      } else {
        TrimTwice(ids[0]);
        var acc' := if vis(id) then acc + [id] else acc;
        CollectUnique(vis, ids[1..], seen + {id}, acc');
        assert Unique(ids, seen) == [id] + Unique(ids[1..], seen + {id});
        assert Unique(ids, seen)[1..] == Unique(ids[1..], seen + {id});
      }
    }
  }

  // ---- what the reference means ------------------------------------------------

  /** `x` occurs in the list before any occurrence of `y`. */
  ghost predicate OccursBefore(all: seq<Entry>, x: string, y: string) {
    exists k :: 0 <= k < |all| && all[k].Entry? && Trim(all[k].id) == x && !ListsId(all[..k + 1], y)
  }

  ghost predicate FirstOccurrences(vis: string -> bool, all: seq<Entry>, r: seq<string>) {
    && Distinct(r)
    && (forall x :: x in r <==> x != "" && vis(x) && ListsId(all, x))
    && (forall i, j :: 0 <= i < j < |r| ==> OccursBefore(all, r[i], r[j]))
  }

  lemma ListsIdAppend(all: seq<Entry>, e: Entry, x: string)
    ensures ListsId(all + [e], x) <==> ListsId(all, x) || (e.Entry? && Trim(e.id) == x)
  {
    hide Text.Trim;
    if e.Entry? && Trim(e.id) == x {
      assert e in all + [e];
    }
  }

  lemma OccursBeforeAppend(all: seq<Entry>, e: Entry, x: string, y: string)
    requires OccursBefore(all, x, y)
    ensures OccursBefore(all + [e], x, y)
  {
    hide Text.Trim;
    var k :| 0 <= k < |all| && all[k].Entry? && Trim(all[k].id) == x && !ListsId(all[..k + 1], y);
    assert (all + [e])[..k + 1] == all[..k + 1];
  }

  /** One more entry keeps the characterisation. */
  lemma FirstOccurrencesAppend(vis: string -> bool, init: seq<Entry>, e: Entry, r0: seq<string>)
    requires FirstOccurrences(vis, init, r0)
    ensures var id := if e.Entry? then Trim(e.id) else "";
            FirstOccurrences(vis, init + [e], if id != "" && id !in r0 && vis(id) then r0 + [id] else r0)
  {
    hide Text.Trim, ListsId, OccursBefore;
    var all := init + [e];
    forall x ensures ListsId(all, x) <==> ListsId(init, x) || (e.Entry? && Trim(e.id) == x) {
      ListsIdAppend(init, e, x);
    }
    forall i, j | 0 <= i < j < |r0| ensures OccursBefore(all, r0[i], r0[j]) {
      OccursBeforeAppend(init, e, r0[i], r0[j]);
    }
    var id := if e.Entry? then Trim(e.id) else "";
    if id != "" && id !in r0 && vis(id) {
      forall i | 0 <= i < |r0| ensures OccursBefore(all, r0[i], id) {
        assert r0[i] in r0;
        LastComesLater(init, e, r0[i], id);
      }
    }
  }

  lemma LastComesLater(init: seq<Entry>, e: Entry, x: string, id: string)
    requires ListsId(init, x) && !ListsId(init, id)
    ensures OccursBefore(init + [e], x, id)
  {
    hide Text.Trim;
    var w :| w in init && w.Entry? && Trim(w.id) == x;
    var k :| 0 <= k < |init| && init[k] == w;
    assert (init + [e])[k] == w && (init + [e])[..k + 1] == init[..k + 1];
    assert forall y :: y in init[..k + 1] ==> y in init;
  }

  /** The reference is exactly the list of first occurrences of the visible,
      non-blank, trimmed ids. */
  lemma {:induction false} ExpectedIsFirstOccurrences(vis: string -> bool, all: seq<Entry>)
    ensures FirstOccurrences(vis, all, Expected(vis, all))
  {
    hide Text.Trim, FirstOccurrences, Collect;
    if all == [] {
      NothingExpected(vis);
    } else {
      var init, e := all[..|all| - 1], all[|all| - 1];
      assert all == init + [e];
      ExpectedIsFirstOccurrences(vis, init);
      ExpectedConcat(vis, init, [e]);
      ExtractOne(e);
      CollectOne(vis, e, Expected(vis, init));
      FirstOccurrencesAppend(vis, init, e, Expected(vis, init));
    }
  }

  lemma NothingExpected(vis: string -> bool)
    ensures FirstOccurrences(vis, [], Expected(vis, []))
  {}

  lemma CollectOne(vis: string -> bool, e: Entry, acc: seq<string>)
    ensures var id := if e.Entry? then Trim(e.id) else "";
            Collect(vis, Extract([e]), acc) == if id != "" && id !in acc && vis(id) then acc + [id] else acc
  {
    hide Text.Trim;
    ExtractOne(e);
    if e.Entry? && Trim(e.id) != "" {
      assert [e.id][1..] == [];
    }
  }

  lemma ExtractOne(e: Entry)
    ensures Extract([e]) == if e.Absent? || Blank(e.id) then [] else [e.id]
  {
    hide Text.Trim;
    assert [e][1..] == [];
  }

  /** Where two such lists differ first, the element of the one comes later in the other. */
  lemma LaterElsewhere(vis: string -> bool, all: seq<Entry>, r: seq<string>, q: seq<string>, k: nat)
    requires FirstOccurrences(vis, all, r) && FirstOccurrences(vis, all, q)
    requires k < |r| && k <= |q| && r[..k] == q[..k] && (k < |q| ==> r[k] != q[k])
    ensures k < |q| && OccursBefore(all, q[k], r[k])
  {
    hide Text.Trim, ListsId, OccursBefore;
    forall i | 0 <= i < k ensures r[i] == q[i] {
      assert r[i] == r[..k][i] && q[i] == q[..k][i];
    }
    assert r[k] in r && r[k] in q;
    var j :| 0 <= j < |q| && q[j] == r[k];
    assert j > k;
  }

  /** ... and it is the only such list: two of them cannot differ first at `k`,
      because `r[k]` and `q[k]` would each have to occur before the other. */
  lemma FirstOccurrencesUnique(vis: string -> bool, all: seq<Entry>, r: seq<string>, q: seq<string>)
    requires FirstOccurrences(vis, all, r) && FirstOccurrences(vis, all, q)
    ensures r == q
  {
    hide FirstOccurrences, OccursBefore;
    if r != q {
      var k := FirstDifference(r, q);
      if k < |r| { LaterElsewhere(vis, all, r, q, k); }
      if k < |q| { LaterElsewhere(vis, all, q, r, k); }
      NotBothBefore(all, r[k], q[k]);
    }
  }

  lemma FirstDifference(r: seq<string>, q: seq<string>) returns (k: nat)
    requires r != q
    ensures k <= |r| && k <= |q| && r[..k] == q[..k]
    ensures (k < |r| && k < |q| && r[k] != q[k]) || (k == |r| < |q|) || (k == |q| < |r|)
  {
    k := 0;
    while k < |r| && k < |q| && r[k] == q[k]
      invariant k <= |r| && k <= |q| && r[..k] == q[..k]
    {
      k := k + 1;
    }
    assert r == r[..|r|] && q == q[..|q|];
  }

  lemma NotBothBefore(all: seq<Entry>, x: string, y: string)
    ensures !(OccursBefore(all, x, y) && OccursBefore(all, y, x))
  {
    hide Text.Trim;
    forall k, l |
      && 0 <= k < |all| && all[k].Entry? && Trim(all[k].id) == x
      && 0 <= l < |all| && all[l].Entry? && Trim(all[l].id) == y
      ensures ListsId(all[..k + 1], y) || ListsId(all[..l + 1], x)
    {
      if k <= l {
        assert all[..l + 1][k] == all[k];
      } else {
        assert all[..k + 1][l] == all[l];
      }
    }
  }
}
