/** The two choices of a thread's newest message (internal/gmailapi/thread.go and draft.go). */
module Newest {
  import opened Options
  import opened Text
  import opened Rfc3339

  /** What matters of a message; Go allows nil. `headerStamp` is the printed Date
      header, or empty when it is missing or does not parse. */
  datatype Message = NilMessage | Message(internalDate: int, headerStamp: string)

  function ReceivedAt(msg: Message): string {
    if msg.NilMessage? then ""
    else if msg.internalDate > 0 then Stamp(msg.internalDate / 1000)
    else msg.headerStamp
  }

  /** The first message whose stamp no other stamp exceeds. */
  ghost predicate FirstByStamp(messages: seq<Message>, r: Option<nat>) {
    match r
    case None => forall i :: 0 <= i < |messages| ==> messages[i].NilMessage?
    case Some(k) =>
      && k < |messages| && messages[k].Message?
      && (forall i :: 0 <= i < |messages| && messages[i].Message? ==> !Less(ReceivedAt(messages[k]), ReceivedAt(messages[i])))
      && (forall i :: 0 <= i < k && messages[i].Message? ==> Less(ReceivedAt(messages[i]), ReceivedAt(messages[k])))
  }

  /** The running best after the messages read so far. */
  function ByStamp(messages: seq<Message>): (r: Option<nat>)
    ensures r.Some? ==> r.value < |messages|
  {
    if messages == [] then None
    else
      var last := |messages| - 1;
      var r := ByStamp(messages[..last]);
      if messages[last].Message?
         && (r.None? || Less(ReceivedAt(messages[r.value]), ReceivedAt(messages[last]))) then Some(last)
      else r
  }

  method NewestByStamp(messages: seq<Message>) returns (r: Option<nat>)
    ensures r == ByStamp(messages)
  {
    hide Less, ReceivedAt;
    r := None;
    var newestStamp := "";
    for i := 0 to |messages|
      invariant r == ByStamp(messages[..i])
      invariant r.Some? ==> newestStamp == ReceivedAt(messages[r.value])
    {
      assert messages[..i + 1][..i] == messages[..i];
      if messages[i].NilMessage? {
        continue;
      }
      var stamp := ReceivedAt(messages[i]);
      if r.None? || Less(newestStamp, stamp) {
        r := Some(i);
        newestStamp := stamp;
      }
    }
    assert messages[..|messages|] == messages;
  }

  lemma {:induction false} ByStampIsFirst(messages: seq<Message>)
    ensures FirstByStamp(messages, ByStamp(messages))
  {
    hide Less, ReceivedAt;
    if messages != [] {
      var last := |messages| - 1;
      var init := messages[..last];
      ByStampIsFirst(init);
      var r := ByStamp(init);
      var stamp := ReceivedAt(messages[last]);
      if ByStamp(messages) == Some(last) {
        forall j | 0 <= j < last && messages[j].Message? ensures Less(ReceivedAt(messages[j]), stamp) {
          assert init[j] == messages[j];
          Raise(ReceivedAt(messages[j]), ReceivedAt(messages[r.value]), stamp);
        }
        forall j | 0 <= j <= last && messages[j].Message? ensures !Less(stamp, ReceivedAt(messages[j])) {
          NotBelow(stamp, ReceivedAt(messages[j]));
        }
      } else {
        assert forall j :: 0 <= j < last ==> init[j] == messages[j];
      }
    }
  }

  lemma Raise(s: string, newest: string, stamp: string)
    requires !Less(newest, s) && Less(newest, stamp)
    ensures Less(s, stamp)
  {
    hide Less;
    LessTotal(s, newest);
    if Less(s, newest) { LessTransitive(s, newest, stamp); }
  }

  lemma NotBelow(stamp: string, s: string)
    requires Less(s, stamp) || s == stamp
    ensures !Less(stamp, s)
  {
    hide Less;
    if Less(stamp, s) { LessAsymmetric(stamp, s); }
  }

  /** The first message whose internal date no other exceeds. */
  ghost predicate FirstByDate(messages: seq<Message>, r: Option<nat>) {
    match r
    case None => forall i :: 0 <= i < |messages| ==> messages[i].NilMessage?
    case Some(k) =>
      && k < |messages| && messages[k].Message?
      && (forall i :: 0 <= i < |messages| && messages[i].Message? ==> messages[i].internalDate <= messages[k].internalDate)
      && (forall i :: 0 <= i < k && messages[i].Message? ==> messages[i].internalDate < messages[k].internalDate)
  }

  function ByDate(messages: seq<Message>): (r: Option<nat>)
    ensures r.Some? ==> r.value < |messages| && messages[r.value].Message?
  {
    if messages == [] then None
    else
      var last := |messages| - 1;
      var r := ByDate(messages[..last]);
      if messages[last].Message?
         && (r.None? || messages[last].internalDate > messages[r.value].internalDate) then Some(last)
      else r
  }

  method NewestByDate(messages: seq<Message>) returns (r: Option<nat>)
    ensures r == ByDate(messages)
  {
    r := None;
    var newestTime := 0;
    for i := 0 to |messages|
      invariant r == ByDate(messages[..i])
      invariant r.Some? ==> newestTime == messages[r.value].internalDate
    {
      assert messages[..i + 1][..i] == messages[..i];
      if messages[i].NilMessage? {
        continue;
      }
      var t := messages[i].internalDate;
      if r.None? || t > newestTime {
        r := Some(i);
        newestTime := t;
      }
    }
    assert messages[..|messages|] == messages;
  }

  lemma {:induction false} ByDateIsFirst(messages: seq<Message>)
    ensures FirstByDate(messages, ByDate(messages))
  {
    if messages != [] {
      var init := messages[..|messages| - 1];
      ByDateIsFirst(init);
      assert forall j :: 0 <= j < |init| ==> init[j] == messages[j];
    }
  }

  /** All internal dates lie in `from..to`. */
  ghost predicate DatedWithin(messages: seq<Message>, from: int, to: int) {
    forall i :: 0 <= i < |messages| && messages[i].Message? ==> from <= messages[i].internalDate < to
  }

  /** Internal dates from 1 ms up to the end of year 9999. */
  ghost predicate Dated(messages: seq<Message>) {
    DatedWithin(messages, 1, END * 1000)
  }

  /** On dated messages the greatest stamp belongs to the first message of the
      latest second, and the two choices agree to the second. */
  lemma NewestAgree(messages: seq<Message>)
    requires Dated(messages)
    ensures var byStamp, byDate := ByStamp(messages), ByDate(messages);
            && byStamp.Some? == byDate.Some?
            && (byStamp.Some? ==>
                  && messages[byStamp.value].Message?
                  && var second := messages[byStamp.value].internalDate / 1000;
                  && (forall i :: 0 <= i < |messages| && messages[i].Message? ==> messages[i].internalDate / 1000 <= second)
                  && (forall i :: 0 <= i < byStamp.value && messages[i].Message? ==> messages[i].internalDate / 1000 < second)
                  && messages[byDate.value].internalDate / 1000 == second
                  && byStamp.value <= byDate.value)
  {
    hide Less, Stamp, ByStamp, ByDate;
    ByStampIsFirst(messages);
    ByDateIsFirst(messages);
    if ByStamp(messages).Some? {
      var k := ByStamp(messages).value;
      forall i | 0 <= i < |messages| && messages[i].Message?
        ensures Less(ReceivedAt(messages[i]), ReceivedAt(messages[k])) <==> messages[i].internalDate / 1000 < messages[k].internalDate / 1000
        ensures Less(ReceivedAt(messages[k]), ReceivedAt(messages[i])) <==> messages[k].internalDate / 1000 < messages[i].internalDate / 1000
      {
        StampOrder(messages[i].internalDate / 1000, messages[k].internalDate / 1000);
        StampOrder(messages[k].internalDate / 1000, messages[i].internalDate / 1000);
      }
    }
  }

  /** The two choices lie in the same second. */
  ghost predicate SameSecond(messages: seq<Message>) {
    var byStamp, byDate := ByStamp(messages), ByDate(messages);
    && byStamp.Some? == byDate.Some?
    && (byStamp.Some? ==> messages[byStamp.value].Message?
                          && messages[byStamp.value].internalDate / 1000 == messages[byDate.value].internalDate / 1000)
  }

  lemma ChoiceOfTwo(a: Message, b: Message)
    requires a.Message? && b.Message? && a.internalDate < b.internalDate && !Less(ReceivedAt(a), ReceivedAt(b))
    ensures ByStamp([a, b]) == Some(0) && ByDate([a, b]) == Some(1)
  {
    hide Less, ReceivedAt;
    assert [a, b][..1] == [a] && [a][..0] == [];
    assert ByStamp([a]) == Some(0) && ByDate([a]) == Some(0);
  }

  /** They agree on all messages dated from 1 ms on exactly until the end of year 9999 ... */
  lemma AgreementEnds(to: int)
    ensures (forall messages :: DatedWithin(messages, 1, to) ==> SameSecond(messages)) <==> to <= END * 1000
  {
    hide ByStamp, ByDate, Stamp, Less;
    if to <= END * 1000 {
      forall messages | DatedWithin(messages, 1, to) ensures SameSecond(messages) {
        NewestAgree(messages);
      }
    } else {
      var a, b := Message((END - 1) * 1000, ""), Message(END * 1000, "");
      StampOrderEndsThere();
      LessAsymmetric(ReceivedAt(b), ReceivedAt(a));
      ChoiceOfTwo(a, b);
      assert DatedWithin([a, b], 1, to) && !SameSecond([a, b]);
    }
  }

  /** ... and, with any Date headers, exactly when no date is below 1 ms. */
  lemma AgreementStarts(from: int)
    requires from < END * 1000
    ensures (forall messages :: DatedWithin(messages, from, END * 1000) ==> SameSecond(messages)) <==> from >= 1
  {
    hide ByStamp, ByDate, Less, Stamp;
    if from >= 1 {
      forall messages | DatedWithin(messages, from, END * 1000) ensures SameSecond(messages) {
        NewestAgree(messages);
      }
    } else {
      var a, b := Message(0, Stamp(2)), Message(1000, "");
      StampOrder(2, 1);
      ChoiceOfTwo(a, b);
      assert DatedWithin([a, b], from, END * 1000) && !SameSecond([a, b]);
    }
  }
}
