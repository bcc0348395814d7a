/** Reply threading and reply recipients (internal/gmailapi/draft.go). */
module Replies {
  import opened Options
  import opened Lists
  import opened Text
  import opened Headers
  import opened Draft
  import opened DraftMessage

  // ---- threading ---------------------------------------------------------------------

  datatype ReplyContext = ReplyContext(inReplyTo: string, references: seq<string>)

  predicate ContainsReference(values: seq<string>, want: string) {
    exists i :: 0 <= i < |values| && Trim(values[i]) == Trim(want)
  }

  /** `DraftReplyContextFromMessage`, the threading part. */
  function ContextOf(headers: seq<Header>): ReplyContext {
    var messageID := Sanitize(HeaderValue(headers, "Message-ID"));
    var own := SplitReferences(HeaderValue(headers, "References"));
    var references := if own == [] then SplitReferences(HeaderValue(headers, "In-Reply-To")) else own;
    ReplyContext(messageID,
                 if messageID != "" && !ContainsReference(references, messageID) then references + [messageID]
                 else references)
  }

  /** `message` is the draft `input` after sending: the threading headers that a
      reader of the raw draft finds, and a message id. */
  ghost predicate SentAs(lib: Library, input: Input, id: string, message: seq<Header>) {
    DraftHeaders(lib, input).Some? &&
    var sent := Kept(DraftHeaders(lib, input).value);
    && HeaderValue(message, "References") == HeaderValue(sent, "References")
    && HeaderValue(message, "In-Reply-To") == HeaderValue(sent, "In-Reply-To")
    && HeaderValue(message, "Message-ID") == id
  }

  /** `input` answers `message`. */
  ghost predicate Answers(input: Input, message: seq<Header>) {
    input.inReplyTo == ContextOf(message).inReplyTo && input.references == ContextOf(message).references
  }

  lemma {:induction false} HeaderOfNone(hs: seq<Header>, name: string)
    requires forall h :: h in hs ==> !EqualFold(h.0, name)
    ensures HeaderValue(hs, name) == "" && HeaderValue(Kept(hs), name) == ""
  {
    hide Text.Trim;
    if hs != [] {
      assert hs[0] in hs;
      HeaderOfNone(hs[1..], name);
      assert Kept(hs) == Kept(hs[1..]) || Kept(hs)[1..] == Kept(hs[1..]);
    }
  }

  /** Looking a header up among the printed ones: its trimmed value, if its name occurs once. */
  lemma {:induction false} HeaderOfKept(hs: seq<Header>, k: nat, name: string)
    requires k < |hs| && EqualFold(hs[k].0, name)
    requires forall i :: 0 <= i < |hs| && i != k ==> !EqualFold(hs[i].0, name)
    ensures HeaderValue(Kept(hs), name) == Trim(hs[k].1)
  {
    hide Text.Trim;
    if k == 0 {
      HeaderOfNone(hs[1..], name);
      if !Blank(hs[0].1) { assert Kept(hs)[0] == (hs[0].0, Trim(hs[0].1)); }
    } else {
      HeaderOfKept(hs[1..], k - 1, name);
      assert Kept(hs) == Kept(hs[1..]) || Kept(hs)[1..] == Kept(hs[1..]);
    }
  }

  /** What a reader of the draft finds under each name. */
  lemma SentHeaders(lib: Library, input: Input)
    requires DraftHeaders(lib, input).Some?
    ensures var sent := Kept(DraftHeaders(lib, input).value);
            && HeaderValue(sent, "From") == Trim(Normalized(lib, [input.from], {}).value[0])
            && HeaderValue(sent, "To") == Trim(Join(Normalized(lib, input.to, {}).value, ", "))
            && HeaderValue(sent, "Cc") == Trim(Join(Normalized(lib, input.cc, {}).value, ", "))
            && HeaderValue(sent, "Bcc") == Trim(Join(Normalized(lib, input.bcc, {}).value, ", "))
            && HeaderValue(sent, "Subject") == Trim(EncodeHeaderValue(lib, input.subject))
            && HeaderValue(sent, "MIME-Version") == Trim("1.0")
            && HeaderValue(sent, "Content-Type") == Trim("text/plain; charset=\"UTF-8\"")
            && HeaderValue(sent, "Content-Transfer-Encoding") == Trim("8bit")
            && HeaderValue(sent, "In-Reply-To") == Trim(Sanitize(input.inReplyTo))
            && HeaderValue(sent, "References") == Trim(Sanitize(Join(input.references, " ")))
  {
    hide Text.Trim, Normalized, Sanitize, Join, EncodeHeaderValue, EqualFold, HeaderValue, Kept;
    var hs := DraftHeaders(lib, input).value;
    NamesDiffer();
    forall i | 0 <= i < 10 ensures hs[i].0 == NAMES[i] {}
    HeaderOfKept(hs, 0, NAMES[0]);
    HeaderOfKept(hs, 1, NAMES[1]);
    HeaderOfKept(hs, 2, NAMES[2]);
    HeaderOfKept(hs, 3, NAMES[3]);
    HeaderOfKept(hs, 4, NAMES[4]);
    HeaderOfKept(hs, 5, NAMES[5]);
    HeaderOfKept(hs, 6, NAMES[6]);
    HeaderOfKept(hs, 7, NAMES[7]);
    HeaderOfKept(hs, 8, NAMES[8]);
    HeaderOfKept(hs, 9, NAMES[9]);
  }

  const NAMES := ["From", "To", "Cc", "Bcc", "Subject", "MIME-Version", "Content-Type",
                  "Content-Transfer-Encoding", "In-Reply-To", "References"]

  /** No two of the printed names agree up to letter case. */
  lemma NamesDiffer()
    ensures forall i, j :: 0 <= i < 10 && 0 <= j < 10 ==> (EqualFold(NAMES[i], NAMES[j]) <==> i == j)
  {
    assert Lower("To")[0] == 't' && Lower("Cc")[0] == 'c';
    assert Lower("MIME-Version")[0] == 'm' && Lower("Content-Type")[0] == 'c';
    forall i, j | 0 <= i < 10 && 0 <= j < 10 ensures EqualFold(NAMES[i], NAMES[j]) <==> i == j {
      if EqualFold(NAMES[i], NAMES[j]) {
        assert |NAMES[i]| == |NAMES[j]|;
      }
    }
  }

  /** The message id of a message is always among the references of a reply to it. */
  lemma OwnIdReferenced(headers: seq<Header>)
    ensures ContextOf(headers).inReplyTo != "" ==> ContextOf(headers).references != []
  {}

  lemma WordTrimmed(w: string)
    requires IsWord(w)
    ensures Trim(w) == w
  {}

  /** One step of a reply chain: the references of the reply are those of the
      answered message and the reply's own id. */
  lemma ReplyStep(lib: Library, parent: seq<Header>, input: Input, id: string, reply: seq<Header>)
    requires Answers(input, parent) && SentAs(lib, input, id, reply)
    requires AllWords(ContextOf(parent).references)
    requires IsWord(id) && id !in ContextOf(parent).references
    ensures ContextOf(reply).references == ContextOf(parent).references + [id]
    ensures ContextOf(reply).inReplyTo == id
    ensures AllWords(ContextOf(reply).references)
  {
    hide Text.Trim, IsSpace, Sanitize, SplitReferences, DraftHeaders, Join, IsWord;
    var refs := ContextOf(parent).references;
    SentHeaders(lib, input);
    SanitizeJoin(refs);
    JoinOfWordsTrimmed(refs);
    SanitizeWord(id);
    JoinTrimmed(refs);
    NoReferences();
    TrimEmpty();
    OwnIdReferenced(parent);
    forall i | 0 <= i < |refs| ensures Trim(refs[i]) != Trim(id) {
      assert refs[i] in refs;
      WordTrimmed(refs[i]);
      WordTrimmed(id);
    }
  }

  lemma JoinTrimmed(words: seq<string>)
    requires AllWords(words)
    ensures Trim(Join(words, " ")) == Join(words, " ")
  {
    JoinOfWordsTrimmed(words);
  }

  lemma NoReferences()
    ensures SplitReferences("") == [] && Sanitize("") == "" && Join([], " ") == ""
  {}

  /** A chain of replies: `inputs[k]` answers `messages[k]` and is sent as
      `messages[k + 1]` with id `ids[k]`. */
  ghost predicate IsChain(lib: Library, messages: seq<seq<Header>>, inputs: seq<Input>, ids: seq<string>) {
    && |messages| == |inputs| + 1 && |ids| == |inputs|
    && forall k :: 0 <= k < |inputs| ==> Answers(inputs[k], messages[k]) && SentAs(lib, inputs[k], ids[k], messages[k + 1])
  }

  /** Along a chain of replies the references are those of the first message and
      then the id of every reply, each once and in order. */
  lemma {:induction false} ReplyChain(lib: Library, messages: seq<seq<Header>>, inputs: seq<Input>, ids: seq<string>, n: nat)
    requires IsChain(lib, messages, inputs, ids) && n <= |ids|
    requires AllWords(ContextOf(messages[0]).references)
    requires forall i :: 0 <= i < |ids| ==> IsWord(ids[i]) && ids[i] !in ContextOf(messages[0]).references
    requires forall i, j :: 0 <= i < j < |ids| ==> ids[i] != ids[j]
    ensures ContextOf(messages[n]).references == ContextOf(messages[0]).references + ids[..n]
    ensures AllWords(ContextOf(messages[n]).references)
    ensures Distinct(ContextOf(messages[0]).references) ==> Distinct(ContextOf(messages[n]).references)
    ensures n > 0 ==> ContextOf(messages[n]).inReplyTo == ids[n - 1]
  {
    hide IsWord, ContextOf, SentAs, Answers;
    if n == 0 {
      assert ids[..0] == [];
    } else {
      ReplyChain(lib, messages, inputs, ids, n - 1);
      assert Answers(inputs[n - 1], messages[n - 1]) && SentAs(lib, inputs[n - 1], ids[n - 1], messages[n]);
      ReplyStep(lib, messages[n - 1], inputs[n - 1], ids[n - 1], messages[n]);
      assert ids[..n] == ids[..n - 1] + [ids[n - 1]];
    }
  }

  lemma {:induction false} AllSpaceNoFields(s: string)
    requires forall i :: 0 <= i < |s| ==> IsSpace(s[i])
    ensures Fields(s) == []
  {
    hide IsSpace;
    if s != [] { AllSpaceNoFields(s[1..]); }
  }

  lemma {:induction false} BlankIsSpace(s: string)
    requires Blank(s)
    ensures forall i :: 0 <= i < |s| ==> IsSpace(s[i])
  {
    hide IsSpace;
    TrimLeftStart(s);
    var t := TrimLeft(s);
    if t != [] { TrimRightKeepsStart(t); }
    TrimLeftDropsSpace(s);
  }

  lemma {:induction false} TrimRightKeepsStart(s: string)
    requires s != [] && !IsSpace(s[0])
    ensures TrimRight(s) != []
  {
    hide IsSpace;
    if IsSpace(s[|s| - 1]) { TrimRightKeepsStart(s[..|s| - 1]); }
  }

  lemma {:induction false} TrimLeftDropsSpace(s: string)
    requires TrimLeft(s) == []
    ensures forall i :: 0 <= i < |s| ==> IsSpace(s[i])
  {
    hide IsSpace;
    if s != [] { TrimLeftDropsSpace(s[1..]); }
  }

  lemma BlankNoReferences(value: string)
    requires Blank(value)
    ensures SplitReferences(value) == []
  {
    hide IsSpace, Text.Trim, Sanitize;
    BlankIsSpace(value);
    AllSpaceNoFields(value);
    SanitizeKeepsWords(value);
  }

  /** A message whose id is one word always starts such a chain; without References
      and In-Reply-To it starts with exactly its own id. */
  lemma ChainStart(first: seq<Header>)
    requires IsWord(HeaderValue(first, "Message-ID"))
    ensures AllWords(ContextOf(first).references)
    ensures HeaderValue(first, "Message-ID") in ContextOf(first).references
    ensures Blank(HeaderValue(first, "References")) && Blank(HeaderValue(first, "In-Reply-To")) ==>
              ContextOf(first).references == [HeaderValue(first, "Message-ID")]
  {
    hide IsSpace, Sanitize;
    var id := HeaderValue(first, "Message-ID");
    SanitizeWord(id);
    if Blank(HeaderValue(first, "References")) { BlankNoReferences(HeaderValue(first, "References")); }
    if Blank(HeaderValue(first, "In-Reply-To")) { BlankNoReferences(HeaderValue(first, "In-Reply-To")); }
    FieldsAreWords(Sanitize(HeaderValue(first, "References")), []);
    FieldsAreWords(Sanitize(HeaderValue(first, "In-Reply-To")), []);
    var own := SplitReferences(HeaderValue(first, "References"));
    var references := if own == [] then SplitReferences(HeaderValue(first, "In-Reply-To")) else own;
    if ContainsReference(references, id) {
      var i :| 0 <= i < |references| && Trim(references[i]) == Trim(id);
      assert references[i] in references;
      WordTrimmed(references[i]);
      WordTrimmed(id);
    }
  }

  lemma {:induction false} JoinLast(words: seq<string>, last: seq<string>)
    requires last != []
    ensures Join(words + [Join(last, " ")], " ") == Join(words + last, " ")
  {
    if words == [] {
      assert words + [Join(last, " ")] == [Join(last, " ")] && words + last == last;
    } else {
      JoinLast(words[1..], last);
      assert (words + [Join(last, " ")])[1..] == words[1..] + [Join(last, " ")];
      assert (words + last)[1..] == words[1..] + last;
    }
  }

  /** The threading headers of a reply are printed as they are. */
  lemma ContextPrinted(headers: seq<Header>)
    ensures var context := ContextOf(headers);
            && Trim(Sanitize(context.inReplyTo)) == context.inReplyTo
            && Trim(Sanitize(Join(context.references, " "))) == Join(context.references, " ")
  {
    hide IsSpace, Text.Trim, Sanitize, Join, Fields, HeaderValue, IsWord;
    var raw := HeaderValue(headers, "Message-ID");
    var context := ContextOf(headers);
    SanitizeKeepsWords(raw);
    SanitizeIsLine(raw);
    var own := SplitReferences(HeaderValue(headers, "References"));
    var references := if own == [] then SplitReferences(HeaderValue(headers, "In-Reply-To")) else own;
    FieldsWords(Sanitize(HeaderValue(headers, "References")));
    FieldsWords(Sanitize(HeaderValue(headers, "In-Reply-To")));
    FieldsWords(raw);
    var words := references;
    if context.references != references {
      NoReferences();
      JoinLast(references, Fields(raw));
      words := references + Fields(raw);
    }
    assert Join(context.references, " ") == Join(words, " ");
    SanitizeJoin(words);
    SanitizeIsLine(Join(words, " "));
  }

  lemma FieldsWords(s: string)
    ensures AllWords(Fields(s))
  {
    FieldsAreWords(s, []);
  }

  // ---- recipients --------------------------------------------------------------------

  function Address(value: string): string {
    Lower(Trim(value))
  }

  /** The addresses that are new, non-empty and not the owner's, in order. */
  function KeepOthers(values: seq<string>, owner: string, seen: set<string>): seq<string> {
    if values == [] then []
    else
      var email := Address(values[0]);
      if email == "" || email == owner || email in seen then KeepOthers(values[1..], owner, seen)
      else [email] + KeepOthers(values[1..], owner, seen + {email})
  }

  /** The closure `add`. */
  method Add(values: seq<string>, owner: string, seen0: set<string>, result0: seq<string>)
    returns (seen: set<string>, result: seq<string>)
    ensures result == result0 + KeepOthers(values, owner, seen0)
    ensures seen == seen0 + Elements(KeepOthers(values, owner, seen0))
  {
    hide Text.Trim;
    seen, result := seen0, result0;
    ghost var kept: seq<string> := [];
    for i := 0 to |values|
      invariant kept + KeepOthers(values[i..], owner, seen) == KeepOthers(values, owner, seen0)
      invariant seen == seen0 + Elements(kept) && result == result0 + kept
    {
      assert values[i..][1..] == values[i + 1..];
      var email := Address(values[i]);
      if email == "" || email == owner || email in seen {
        continue;
      }
      seen := seen + {email};
      result := result + [email];
      kept := kept + [email];
    }
  }

  /** The address fields of the answered message; `replyTo` is its raw Reply-To header. */
  datatype Participants = Participants(from: string, to: seq<string>, cc: seq<string>, replyTo: string)

  function ReplyAddress(lib: Library, parts: Participants): string {
    var replyTo := Normalized(lib, [parts.replyTo], {});
    if replyTo.Some? && |replyTo.value| > 0 then replyTo.value[0] else parts.from
  }

  /** To and Cc of a reply. */
  function Recipients(lib: Library, parts: Participants, account: string, replyAll: bool): (seq<string>, seq<string>) {
    var owner := Address(account);
    var first := KeepOthers([ReplyAddress(lib, parts)], owner, {});
    var to := if replyAll || first == [] then first + KeepOthers(parts.to, owner, Elements(first)) else first;
    (to, if replyAll then KeepOthers(parts.cc, owner, Elements(to)) else [])
  }

  method DraftReplyRecipients(lib: Library, parts: Participants, account: string, replyAll: bool)
    returns (to: seq<string>, cc: seq<string>)
    ensures (to, cc) == Recipients(lib, parts, account, replyAll)
  {
    hide Text.Trim, Normalized, KeepOthers, Address, EqualFold;
    var owner := Address(account);
    var seen: set<string> := {};
    to, cc := [], [];
    var replyTo := NormalizeAddressList(lib, [parts.replyTo]);
    var replyAddress := parts.from;
    if replyTo.Some? && |replyTo.value| > 0 {
      replyAddress := replyTo.value[0];
    }
    SameAddress(replyAddress, account);
    KeepOne(replyAddress, owner);
    if !EqualFold(Trim(replyAddress), owner) {
      seen, to := Add([replyAddress], owner, seen, to);
    }
    ghost var first := KeepOthers([replyAddress], owner, {});
    assert to == first && seen == Elements(first);
    if replyAll || |to| == 0 {
      seen, to := Add(parts.to, owner, seen, to);
      assert seen == Elements(to);
    }
    if replyAll {
      seen, cc := Add(parts.cc, owner, seen, cc);
      assert cc == KeepOthers(parts.cc, owner, Elements(to));
    }
  }

  lemma SameAddress(value: string, account: string)
    ensures EqualFold(Trim(value), Address(account)) <==> Address(value) == Address(account)
  {
    LowerIdempotent(Trim(account));
  }

  lemma KeepOne(value: string, owner: string)
    ensures KeepOthers([value], owner, {}) ==
              if Address(value) == "" || Address(value) == owner then [] else [Address(value)]
  {
    assert [value][1..] == [];
  }

  lemma {:induction false} KeepConcat(a: seq<string>, b: seq<string>, owner: string, seen: set<string>)
    ensures KeepOthers(a + b, owner, seen)
         == KeepOthers(a, owner, seen) + KeepOthers(b, owner, seen + Elements(KeepOthers(a, owner, seen)))
  {
    hide Text.Trim;
    if a == [] {
      assert a + b == b && seen + Elements([]) == seen;
    } else {
      assert (a + b)[1..] == a[1..] + b;
      var email := Address(a[0]);
      if email == "" || email == owner || email in seen {
        KeepConcat(a[1..], b, owner, seen);
      } else {
        KeepConcat(a[1..], b, owner, seen + {email});
        var kept := KeepOthers(a[1..], owner, seen + {email});
        assert seen + {email} + Elements(kept) == seen + Elements([email] + kept);
      }
    }
  }

  /** What the kept addresses are: each non-empty address other than the owner's
      exactly once, and nothing else. */
  lemma {:induction false} KeepOthersMeans(values: seq<string>, owner: string, seen: set<string>)
    ensures var r := KeepOthers(values, owner, seen);
            && (forall i, j :: 0 <= i < j < |r| ==> r[i] != r[j])
            && owner !in r && "" !in r
            && (forall x :: x in r ==> x !in seen && exists v :: v in values && Address(v) == x)
            && (forall v :: v in values && Address(v) != "" && Address(v) != owner && Address(v) !in seen ==> Address(v) in r)
  {
    hide Text.Trim, Address;
    if values != [] {
      var email, rest := Address(values[0]), values[1..];
      assert forall v :: v in values <==> v == values[0] || v in rest;
      if email == "" || email == owner || email in seen {
        KeepOthersMeans(rest, owner, seen);
      } else {
        KeepOthersMeans(rest, owner, seen + {email});
        var r := KeepOthers(rest, owner, seen + {email});
        assert forall j :: 0 <= j < |r| ==> r[j] in r;
      }
    }
  }

  /** Without reply-all there is no Cc, and To is the reply address or, when that
      is empty or the owner's, the other addresses of the To header. */
  lemma ReplyToOne(lib: Library, parts: Participants, account: string)
    ensures var reply, owner := Address(ReplyAddress(lib, parts)), Address(account);
            Recipients(lib, parts, account, false)
            == (if reply != "" && reply != owner then [reply] else KeepOthers(parts.to, owner, {}), [])
  {
    hide Text.Trim, Address, ReplyAddress, KeepOthers;
    KeepOne(ReplyAddress(lib, parts), Address(account));
    var none: seq<string> := [];
    assert Elements(none) == {} && none + KeepOthers(parts.to, Address(account), {}) == KeepOthers(parts.to, Address(account), {});
  }

  /** Reply-all conservation: To and Cc together hold each non-empty address of
      the reply address, To and Cc headers except the owner's exactly once, in
      that order, so they are disjoint and the owner never appears. */
  lemma ReplyAllConserves(lib: Library, parts: Participants, account: string)
    ensures var (to, cc) := Recipients(lib, parts, account, true);
            var sources := [ReplyAddress(lib, parts)] + parts.to + parts.cc;
            && to + cc == KeepOthers(sources, Address(account), {})
            && (forall x :: x in to || x in cc <==>
                  x != "" && x != Address(account) && exists v :: v in sources && Address(v) == x)
            && (forall x :: !(x in to && x in cc))
            && (forall i, j :: 0 <= i < j < |to| ==> to[i] != to[j])
            && (forall i, j :: 0 <= i < j < |cc| ==> cc[i] != cc[j])
  {
    hide Text.Trim, Address, KeepOthers, ReplyAddress;
    var owner, reply := Address(account), ReplyAddress(lib, parts);
    var (to, cc) := Recipients(lib, parts, account, true);
    KeepConcat([reply], parts.to, owner, {});
    KeepConcat([reply] + parts.to, parts.cc, owner, {});
    assert {} + Elements(KeepOthers([reply], owner, {})) == Elements(KeepOthers([reply], owner, {}));
    assert {} + Elements(to) == Elements(to);
    var all := to + cc;
    KeepOthersMeans([reply] + parts.to + parts.cc, owner, {});
    forall x ensures x in to || x in cc <==> x in all {}
    forall i, j | 0 <= i < |to| && 0 <= j < |cc| ensures to[i] != cc[j] {
      assert all[i] == to[i] && all[|to| + j] == cc[j];
    }
    forall i, j | 0 <= i < j < |to| ensures to[i] != to[j] { assert all[i] == to[i] && all[j] == to[j]; }
    forall i, j | 0 <= i < j < |cc| ensures cc[i] != cc[j] {
      assert all[|to| + i] == cc[i] && all[|to| + j] == cc[j];
    }
  }

  lemma {:induction false} KeepOthersBare(values: seq<string>, owner: string, seen: set<string>)
    ensures forall a :: a in KeepOthers(values, owner, seen) ==> Bare(a)
  {
    hide Text.Trim, Bare;
    if values != [] {
      if Address(values[0]) != "" { NormalIsBare(values[0]); }
      KeepOthersBare(values[1..], owner, seen);
      KeepOthersBare(values[1..], owner, seen + {Address(values[0])});
    }
  }

  /** The recipients of a reply are bare addresses, each once in its list. */
  lemma RecipientsBare(lib: Library, parts: Participants, account: string, replyAll: bool)
    ensures var (to, cc) := Recipients(lib, parts, account, replyAll); BareList(to) && BareList(cc)
  {
    hide Text.Trim, Bare, KeepOthers, Address, ReplyAddress;
    var owner, reply := Address(account), ReplyAddress(lib, parts);
    KeepOthersBare([reply], owner, {});
    KeepOthersMeans([reply], owner, {});
    var first := KeepOthers([reply], owner, {});
    KeepOthersBare(parts.to, owner, Elements(first));
    KeepOthersMeans(parts.to, owner, Elements(first));
    var more := KeepOthers(parts.to, owner, Elements(first));
    assert forall i :: 0 <= i < |first| ==> first[i] in Elements(first);
    assert forall i :: 0 <= i < |more| ==> more[i] in more;
    var (to, cc) := Recipients(lib, parts, account, replyAll);
    KeepOthersBare(parts.cc, owner, Elements(to));
    KeepOthersMeans(parts.cc, owner, Elements(to));
  }

  // ---- whom a reply goes to, from the headers ------------------------------------------

  lemma {:induction false} FirstKept(addrs: seq<string>, k: nat, seen: set<string>)
    requires k < |addrs| && forall i :: 0 <= i < k ==> Lower(Trim(addrs[i])) == ""
    requires Lower(Trim(addrs[k])) != "" && Lower(Trim(addrs[k])) !in seen
    ensures KeepNew(addrs, seen) != [] && KeepNew(addrs, seen)[0] == Lower(Trim(addrs[k]))
  {
    hide Text.Trim;
    if k > 0 { FirstKept(addrs[1..], k - 1, seen); }
  }

  lemma {:induction false} NoneKept(addrs: seq<string>, seen: set<string>)
    requires forall i :: 0 <= i < |addrs| ==> Lower(Trim(addrs[i])) == ""
    ensures KeepNew(addrs, seen) == []
  {
    hide Text.Trim;
    if addrs != [] { NoneKept(addrs[1..], seen); }
  }

  lemma OneParsed(lib: Library, value: string)
    ensures Parsed(lib, [value]) ==
              if Trim(value) == "" then Some([]) else lib.parse(Trim(value))
  {
    hide Text.Trim;
    assert [value][1..] == [];
    if lib.parse(Trim(value)).Some? { assert lib.parse(Trim(value)).value + [] == lib.parse(Trim(value)).value; }
  }

  /** The first usable address of the Reply-To header is the first recipient, unless
      it is the owner's. */
  lemma ReplyToCounts(lib: Library, parts: Participants, account: string, replyAll: bool, k: nat)
    requires Trim(parts.replyTo) != "" && lib.parse(Trim(parts.replyTo)).Some?
    requires var addrs := lib.parse(Trim(parts.replyTo)).value;
             && k < |addrs| && (forall i :: 0 <= i < k ==> Lower(Trim(addrs[i])) == "")
             && Lower(Trim(addrs[k])) != "" && Lower(Trim(addrs[k])) != Lower(Trim(account))
    ensures var to := Recipients(lib, parts, account, replyAll).0;
            to != [] && to[0] == Lower(Trim(lib.parse(Trim(parts.replyTo)).value[k]))
  {
    hide Text.Trim, KeepNew, KeepOthers, Normalized;
    var addrs := lib.parse(Trim(parts.replyTo)).value;
    var a := Lower(Trim(addrs[k]));
    OneParsed(lib, parts.replyTo);
    NormalizedIsParsed(lib, [parts.replyTo], {});
    FirstKept(addrs, k, {});
    assert Address(a) == a by { NormalIsBare(addrs[k]); }
    KeepOne(a, Address(account));
  }

  /** Without a usable Reply-To header the sender is. */
  lemma FromCounts(lib: Library, parts: Participants, account: string, replyAll: bool)
    requires var h := Trim(parts.replyTo);
             h == "" || lib.parse(h).None? || forall i :: 0 <= i < |lib.parse(h).value| ==> Lower(Trim(lib.parse(h).value[i])) == ""
    requires Lower(Trim(parts.from)) != "" && Lower(Trim(parts.from)) != Lower(Trim(account))
    ensures var to := Recipients(lib, parts, account, replyAll).0;
            to != [] && to[0] == Lower(Trim(parts.from))
  {
    hide Text.Trim, KeepNew, KeepOthers, Normalized;
    OneParsed(lib, parts.replyTo);
    NormalizedIsParsed(lib, [parts.replyTo], {});
    if Parsed(lib, [parts.replyTo]).Some? { NoneKept(Parsed(lib, [parts.replyTo]).value, {}); }
    KeepOne(parts.from, Address(account));
  }

  /** The threading headers of a reply: the words of References or, when it has none,
      of In-Reply-To, and behind them the message's own id unless it is among them. */
  lemma ContextMeans(headers: seq<Header>)
    ensures var id := Join(Fields(HeaderValue(headers, "Message-ID")), " ");
            var own := Fields(HeaderValue(headers, "References"));
            var known := if own != [] then own else Fields(HeaderValue(headers, "In-Reply-To"));
            && ContextOf(headers).inReplyTo == id
            && ContextOf(headers).references == if id == "" || id in known then known else known + [id]
  {
    hide IsSpace, Text.Trim, Sanitize, Join, Fields, HeaderValue, IsWord;
    var raw, refs, answered := HeaderValue(headers, "Message-ID"), HeaderValue(headers, "References"), HeaderValue(headers, "In-Reply-To");
    SanitizeKeepsWords(raw);
    SanitizeIsLine(raw);
    SanitizeKeepsWords(refs);
    SanitizeKeepsWords(answered);
    FieldsWords(refs);
    FieldsWords(answered);
    var id := Join(Fields(raw), " ");
    var known := if Fields(refs) != [] then Fields(refs) else Fields(answered);
    forall i | 0 <= i < |known| ensures Trim(known[i]) == known[i] {
      assert known[i] in known;
      WordTrimmed(known[i]);
    }
    assert ContainsReference(known, id) <==> id in known;
  }
}
