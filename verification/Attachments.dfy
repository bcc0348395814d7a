/** Attachment references of a MIME tree (internal/gmailapi/attachment.go): the
    walk that prints tree paths as ids, and the lookup by id. */
module Attachments {
  import opened Options
  import opened Text
  import opened Headers

  datatype Body = NoBody | Body(attachmentId: string, data: string, size: int)

  /** A MIME part; Go allows nil parts and nil bodies. */
  datatype Part =
    | NilPart
    | Part(mimeType: string, filename: string, headers: seq<Header>, body: Body, parts: seq<Part>)

  datatype Meta = Meta(attachmentID: string, filename: string, mimeType: string, size: int)

  datatype Ref = Ref(meta: Meta, gmailID: string, inlineData: string) {
    predicate IsInline() {
      !Blank(inlineData)
    }

    function GmailID(): string {
      Trim(gmailID)
    }
  }

  const INLINE_PREFIX := "sg-inline:"
  const PART_PREFIX := "sg-part:"

  // ---- one part --------------------------------------------------------------------

  function PartHeader(part: Part, name: string): string {
    if part.NilPart? then "" else HeaderValue(part.headers, name)
  }

  predicate IsMessageBodyPart(part: Part)
    requires part.Part?
  {
    Lower(Trim(part.mimeType)) == "text/plain" || Lower(Trim(part.mimeType)) == "text/html"
  }

  predicate IsAttachmentPart(part: Part) {
    part.Part? && part.body.Body? &&
    (!Blank(part.body.attachmentId) ||
     (!Blank(part.body.data) &&
      (!Blank(part.filename) ||
       var disposition := Lower(Trim(PartHeader(part, "Content-Disposition")));
       "attachment" <= disposition
       || ("inline" <= disposition && !IsMessageBodyPart(part))
       || (!Blank(PartHeader(part, "Content-ID")) && !IsMessageBodyPart(part)))))
  }

  function JoinPath(path: seq<nat>): string {
    Join(seq(|path|, i requires 0 <= i < |path| => Itoa(path[i])), ".")
  }

  function AttachmentID(prefix: string, path: seq<nat>): string {
    prefix + if path == [] then "root" else JoinPath(path)
  }

  function Filename(part: Part): string
    requires part.Part?
  {
    if Blank(part.filename) then "attachment" else Trim(part.filename)
  }

  /** `attachmentRef` on a part that is an attachment. */
  function RefOf(part: Part, path: seq<nat>): Ref
    requires IsAttachmentPart(part)
  {
    var gmailID := Trim(part.body.attachmentId);
    var prefix := if gmailID == "" then INLINE_PREFIX else PART_PREFIX;
    Ref(Meta(AttachmentID(prefix, path), Filename(part), Trim(part.mimeType), part.body.size),
        gmailID, if gmailID == "" then Trim(part.body.data) else "")
  }

  // ---- the walk --------------------------------------------------------------------

  function Own(part: Part, path: seq<nat>): seq<Ref> {
    if IsAttachmentPart(part) then [RefOf(part, path)] else []
  }

  function Collect(part: Part, path: seq<nat>): seq<Ref>
    decreases part, 1
  {
    if part.NilPart? then [] else Own(part, path) + CollectChildren(part, path, |part.parts|)
  }

  /** The references below the first `n` children. */
  function CollectChildren(part: Part, path: seq<nat>, n: nat): seq<Ref>
    requires part.Part? && n <= |part.parts|
    decreases part, 0, n
  {
    if n == 0 then [] else CollectChildren(part, path, n - 1) + Collect(part.parts[n - 1], path + [n - 1])
  }

  method CollectAttachmentRefs(part: Part, path: seq<nat>) returns (result: seq<Ref>)
    ensures result == Collect(part, path)
    decreases part
  {
    hide IsAttachmentPart, RefOf;
    if part.NilPart? {
      return [];
    }
    result := [];
    if IsAttachmentPart(part) {
      result := result + [RefOf(part, path)];
    }
    for idx := 0 to |part.parts|
      invariant result == Own(part, path) + CollectChildren(part, path, idx)
    {
      var childPath := path + [idx];
      var below := CollectAttachmentRefs(part.parts[idx], childPath);
      result := result + below;
    }
  }

  function FirstWithID(refs: seq<Ref>, id: string): Option<Ref> {
    if refs == [] then None
    else if refs[0].meta.attachmentID == id then Some(refs[0])
    else FirstWithID(refs[1..], id)
  }

  function Find(part: Part, attachmentID: string): Option<Ref> {
    var id := Trim(attachmentID);
    if id == "" then None else FirstWithID(Collect(part, []), id)
  }

  method FindAttachment(part: Part, attachmentID: string) returns (r: Option<Ref>)
    ensures r == Find(part, attachmentID)
  {
    var id := Trim(attachmentID);
    if id == "" {
      return None;
    }
    var refs := CollectAttachmentRefs(part, []);
    for i := 0 to |refs|
      invariant FirstWithID(refs[i..], id) == FirstWithID(refs, id)
    {
      if refs[i].meta.attachmentID == id {
        return Some(refs[i]);
      }
    }
    return None;
  }

  // ---- ids are tree addresses --------------------------------------------------------

  /** The part at an address, if there is one. */
  function PartAt(root: Part, path: seq<nat>): Part
    decreases |path|
  {
    if path == [] then root
    else if root.NilPart? || path[0] >= |root.parts| then NilPart
    else PartAt(root.parts[path[0]], path[1..])
  }

  function SplitDots(s: string, word: string): seq<string> {
    if s == [] then [word]
    else if s[0] == '.' then [word] + SplitDots(s[1..], [])
    else SplitDots(s[1..], word + [s[0]])
  }

  lemma {:induction false} SplitWord(w: string, rest: string, word: string)
    requires '.' !in w
    ensures SplitDots(w + rest, word) == SplitDots(rest, word + w)
  {
    if w == [] {
      assert w + rest == rest && word + w == word;
    } else {
      assert (w + rest)[1..] == w[1..] + rest;
      assert word + [w[0]] + w[1..] == word + w;
      SplitWord(w[1..], rest, word + [w[0]]);
    }
  }

  lemma {:induction false} SplitOfJoin(parts: seq<string>)
    requires parts != [] && forall p :: p in parts ==> '.' !in p
    ensures SplitDots(Join(parts, "."), []) == parts
  {
    assert parts[0] in parts;
    if |parts| == 1 {
      SplitWord(parts[0], [], []);
      assert parts[0] + [] == parts[0] && [] + parts[0] == parts[0];
    } else {
      var rest := "." + Join(parts[1..], ".");
      assert Join(parts, ".") == parts[0] + rest;
      SplitWord(parts[0], rest, []);
      assert [] + parts[0] == parts[0] && rest[1..] == Join(parts[1..], ".");
      SplitOfJoin(parts[1..]);
      assert [parts[0]] + parts[1..] == parts;
    }
  }

  function Printed(path: seq<nat>): (r: seq<string>)
    ensures |r| == |path|
    ensures forall p :: p in r ==> p != [] && forall c :: c in p ==> IsDigit(c)
  {
    seq(|path|, i requires 0 <= i < |path| => Itoa(path[i]))
  }

  /** The printed path determines the path. */
  lemma JoinPathInjective(p: seq<nat>, q: seq<nat>)
    requires JoinPath(p) == JoinPath(q) && p != [] && q != []
    ensures p == q
  {
    assert JoinPath(p) == Join(Printed(p), ".") && JoinPath(q) == Join(Printed(q), ".");
    SplitOfJoin(Printed(p));
    SplitOfJoin(Printed(q));
    forall i | 0 <= i < |p| ensures p[i] == q[i] {
      assert Printed(p)[i] == Printed(q)[i];
      AtoiOfItoa(p[i]);
      AtoiOfItoa(q[i]);
    }
  }

  lemma JoinPathStart(p: seq<nat>)
    requires p != []
    ensures JoinPath(p) != "" && IsDigit(JoinPath(p)[0]) && IsDigit(JoinPath(p)[|JoinPath(p)| - 1])
  {
    assert JoinPath(p) == Join(Printed(p), ".");
    JoinEnds(Printed(p));
  }

  lemma {:induction false} JoinEnds(parts: seq<string>)
    requires parts != [] && forall p :: p in parts ==> p != [] && forall c :: c in p ==> IsDigit(c)
    ensures var j := Join(parts, "."); j != "" && IsDigit(j[0]) && IsDigit(j[|j| - 1])
  {
    assert parts[0] in parts && parts[0][0] in parts[0] && parts[0][|parts[0]| - 1] in parts[0];
    if |parts| > 1 {
      assert forall p :: p in parts[1..] ==> p in parts;
      JoinEnds(parts[1..]);
    }
  }

  /** The two prefixes and `root` never collide, so an id determines its kind and its address. */
  lemma IDInjective(a: string, p: seq<nat>, b: string, q: seq<nat>)
    requires a in {INLINE_PREFIX, PART_PREFIX} && b in {INLINE_PREFIX, PART_PREFIX}
    requires AttachmentID(a, p) == AttachmentID(b, q)
    ensures a == b && p == q
  {
    var id := AttachmentID(a, p);
    assert id[3] == a[3] && id[3] == b[3];
    assert id[|a|..] == if p == [] then "root" else JoinPath(p);
    assert id[|b|..] == if q == [] then "root" else JoinPath(q);
    if p != [] { JoinPathStart(p); }
    if q != [] { JoinPathStart(q); }
    if p != [] && q != [] { JoinPathInjective(p, q); }
  }

  lemma IDTrimmed(a: string, p: seq<nat>)
    requires a in {INLINE_PREFIX, PART_PREFIX}
    ensures Trim(AttachmentID(a, p)) == AttachmentID(a, p) && AttachmentID(a, p) != ""
  {
    var id := AttachmentID(a, p);
    if p != [] { JoinPathStart(p); }
    assert id[|id| - 1] == if p == [] then 't' else JoinPath(p)[|JoinPath(p)| - 1];
    assert Trimmed(id);
  }

  /** The part at `q` below `part` is an attachment and `r` is its reference. */
  ghost predicate ListedAt(part: Part, path: seq<nat>, q: seq<nat>, r: Ref) {
    IsAttachmentPart(PartAt(part, q)) && r == RefOf(PartAt(part, q), path + q)
  }

  /** Every listed reference is that of the part at some address. */
  lemma {:induction false} ListedHasAddress(part: Part, path: seq<nat>, r: Ref) returns (q: seq<nat>)
    requires r in Collect(part, path)
    ensures ListedAt(part, path, q, r)
    decreases part, 1
  {
    hide IsAttachmentPart, RefOf;
    q := [];
    if r in Own(part, path) {
      assert path + q == path;
    } else {
      var i: nat;
      i, q := ListedChild(part, path, |part.parts|, r);
      assert path + ([i] + q) == path + [i] + q;
      assert ([i] + q)[1..] == q;
      q := [i] + q;
    }
  }

  lemma {:induction false} ListedChild(part: Part, path: seq<nat>, n: nat, r: Ref) returns (i: nat, q: seq<nat>)
    requires part.Part? && n <= |part.parts| && r in CollectChildren(part, path, n)
    ensures i < n && ListedAt(part.parts[i], path + [i], q, r)
    decreases part, 0, n
  {
    hide IsAttachmentPart, RefOf;
    if r in Collect(part.parts[n - 1], path + [n - 1]) {
      i := n - 1;
      q := ListedHasAddress(part.parts[i], path + [i], r);
    } else {
      i, q := ListedChild(part, path, n - 1, r);
    }
  }

  /** Every attachment part is listed, with its address as its id. */
  lemma {:induction false} AddressIsListed(part: Part, path: seq<nat>, q: seq<nat>)
    requires IsAttachmentPart(PartAt(part, q))
    ensures RefOf(PartAt(part, q), path + q) in Collect(part, path)
    decreases |q|
  {
    hide IsAttachmentPart, RefOf;
    assert !NilPart.Part? && !part.NilPart? by { NilIsNoAttachment(); }
    if q == [] {
      assert path + q == path;
    } else {
      assert q[0] < |part.parts| by { NilIsNoAttachment(); }
      AddressIsListed(part.parts[q[0]], path + [q[0]], q[1..]);
      assert path + [q[0]] + q[1..] == path + q;
      ChildIsListed(part, path, |part.parts|, q[0], RefOf(PartAt(part, q), path + q));
    }
  }

  lemma NilIsNoAttachment()
    ensures !IsAttachmentPart(NilPart)
  {}

  lemma {:induction false} ChildIsListed(part: Part, path: seq<nat>, n: nat, i: nat, r: Ref)
    requires part.Part? && i < n <= |part.parts| && r in Collect(part.parts[i], path + [i])
    ensures r in CollectChildren(part, path, n)
    decreases n
  {
    hide IsAttachmentPart, RefOf;
    if i < n - 1 { ChildIsListed(part, path, n - 1, i, r); }
  }

  ghost predicate DistinctIDs(refs: seq<Ref>) {
    forall i, j :: 0 <= i < j < |refs| ==> refs[i].meta.attachmentID != refs[j].meta.attachmentID
  }

  lemma DistinctConcat(a: seq<Ref>, b: seq<Ref>)
    requires DistinctIDs(a) && DistinctIDs(b)
    requires forall x, y :: x in a && y in b ==> x.meta.attachmentID != y.meta.attachmentID
    ensures DistinctIDs(a + b)
  {}

  /** References at different addresses have different ids. */
  lemma AddressesApart(p: Part, path: seq<nat>, q: seq<nat>, r: Ref, p': Part, path': seq<nat>, q': seq<nat>, r': Ref)
    requires ListedAt(p, path, q, r) && ListedAt(p', path', q', r')
    requires path + q != path' + q'
    ensures r.meta.attachmentID != r'.meta.attachmentID
  {
    hide AttachmentID, IsAttachmentPart;
    var a := if r.gmailID == "" then INLINE_PREFIX else PART_PREFIX;
    var b := if r'.gmailID == "" then INLINE_PREFIX else PART_PREFIX;
    if AttachmentID(a, path + q) == AttachmentID(b, path' + q') {
      IDInjective(a, path + q, b, path' + q');
    }
  }

  /** All listed ids are pairwise distinct. */
  lemma {:induction false} ListedIDsDistinct(part: Part, path: seq<nat>)
    ensures DistinctIDs(Collect(part, path))
    decreases part, 1
  {
    hide IsAttachmentPart, RefOf;
    if part.Part? {
      var n := |part.parts|;
      ChildIDsDistinct(part, path, n);
      forall x, y | x in Own(part, path) && y in CollectChildren(part, path, n)
        ensures x.meta.attachmentID != y.meta.attachmentID
      {
        var i, q := ListedChild(part, path, n, y);
        assert path + [] == path;
        assert |path + [i] + q| > |path|;
        AddressesApart(part, path, [], x, part.parts[i], path + [i], q, y);
      }
      DistinctConcat(Own(part, path), CollectChildren(part, path, n));
    }
  }

  lemma {:induction false} ChildIDsDistinct(part: Part, path: seq<nat>, n: nat)
    requires part.Part? && n <= |part.parts|
    ensures DistinctIDs(CollectChildren(part, path, n))
    decreases part, 0, n
  {
    hide IsAttachmentPart, RefOf;
    if n > 0 {
      var before, last := CollectChildren(part, path, n - 1), Collect(part.parts[n - 1], path + [n - 1]);
      ChildIDsDistinct(part, path, n - 1);
      ListedIDsDistinct(part.parts[n - 1], path + [n - 1]);
      forall x, y | x in before && y in last ensures x.meta.attachmentID != y.meta.attachmentID {
        var i, q := ListedChild(part, path, n - 1, x);
        var q' := ListedHasAddress(part.parts[n - 1], path + [n - 1], y);
        assert (path + [i] + q)[|path|] == i && (path + [n - 1] + q')[|path|] == n - 1;
        AddressesApart(part.parts[i], path + [i], q, x, part.parts[n - 1], path + [n - 1], q', y);
      }
      DistinctConcat(before, last);
    }
  }

  lemma {:induction false} FirstWithIDFinds(refs: seq<Ref>, id: string)
    ensures var f := FirstWithID(refs, id);
            && (f.Some? ==> f.value in refs && f.value.meta.attachmentID == id)
            && (f.None? ==> forall r :: r in refs ==> r.meta.attachmentID != id)
  {
    if refs != [] && refs[0].meta.attachmentID != id {
      FirstWithIDFinds(refs[1..], id);
    }
  }

  /** Looking up a listed id gives exactly the reference that was listed. */
  lemma FindListed(root: Part, r: Ref)
    requires r in Collect(root, [])
    ensures Find(root, r.meta.attachmentID) == Some(r)
  {
    hide IsAttachmentPart, AttachmentID, Collect;
    var refs := Collect(root, []);
    var q := ListedHasAddress(root, [], r);
    IDTrimmed(if r.gmailID == "" then INLINE_PREFIX else PART_PREFIX, [] + q);
    var f := FirstWithID(refs, r.meta.attachmentID);
    FirstWithIDFinds(refs, r.meta.attachmentID);
    ListedIDsDistinct(root, []);
    var i :| 0 <= i < |refs| && refs[i] == f.value;
    var j :| 0 <= j < |refs| && refs[j] == r;
    assert i == j;
  }

  /** The prefix an attachment part's id has. */
  function PrefixOf(part: Part): string
    requires IsAttachmentPart(part)
  {
    if Blank(part.body.attachmentId) then INLINE_PREFIX else PART_PREFIX
  }

  /** Lookup is navigation: the id of an address finds the part at that address,
      if it is an attachment of the kind that the prefix says, and nothing else. */
  lemma FindIsNavigation(root: Part, prefix: string, path: seq<nat>)
    requires prefix in {INLINE_PREFIX, PART_PREFIX}
    ensures Find(root, AttachmentID(prefix, path)) ==
              if IsAttachmentPart(PartAt(root, path)) && PrefixOf(PartAt(root, path)) == prefix
              then Some(RefOf(PartAt(root, path), path)) else None
  {
    hide IsAttachmentPart, AttachmentID, Collect;
    var id := AttachmentID(prefix, path);
    var refs := Collect(root, []);
    IDTrimmed(prefix, path);
    assert [] + path == path;
    if IsAttachmentPart(PartAt(root, path)) && PrefixOf(PartAt(root, path)) == prefix {
      AddressIsListed(root, [], path);
      FindListed(root, RefOf(PartAt(root, path), path));
    } else {
      FirstWithIDFinds(refs, id);
      var f := FirstWithID(refs, id);
      if f.Some? {
        var q := ListedHasAddress(root, [], f.value);
        assert [] + q == q;
        IDInjective(prefix, path, PrefixOf(PartAt(root, q)), q);
      }
    }
  }

  /** An id that is found is the address of an attachment part. */
  lemma FoundIsAddress(root: Part, id: string) returns (path: seq<nat>)
    requires Find(root, id).Some?
    ensures IsAttachmentPart(PartAt(root, path)) && Find(root, id).value == RefOf(PartAt(root, path), path)
    ensures Trim(id) == AttachmentID(PrefixOf(PartAt(root, path)), path)
  {
    hide IsAttachmentPart, AttachmentID, Collect;
    FirstWithIDFinds(Collect(root, []), Trim(id));
    path := ListedHasAddress(root, [], Find(root, id).value);
    assert [] + path == path;
  }

  /** A part that a client can download: Gmail keeps it apart, or it has data and a
      file name, the disposition of an attachment or, if it is not text that may be
      the body, an inline disposition or a Content-ID. */
  ghost predicate Downloadable(part: Part) {
    part.Part? && part.body.Body? &&
    var disposition := Lower(Trim(HeaderValue(part.headers, "Content-Disposition")));
    var mimeType := Lower(Trim(part.mimeType));
    || Trim(part.body.attachmentId) != ""
    || (Trim(part.body.data) != "" &&
        (|| Trim(part.filename) != ""
         || "attachment" <= disposition
         || (mimeType != "text/plain" && mimeType != "text/html"
             && ("inline" <= disposition || Trim(HeaderValue(part.headers, "Content-ID")) != ""))))
  }

  lemma DownloadableExactly(part: Part)
    ensures IsAttachmentPart(part) <==> Downloadable(part)
  {
    hide Text.Trim, HeaderValue;
  }

  /** Under either kind of id, the address of a part finds something exactly when the
      part is downloadable. */
  lemma PartFound(root: Part, path: seq<nat>)
    ensures Find(root, AttachmentID(INLINE_PREFIX, path)).Some? || Find(root, AttachmentID(PART_PREFIX, path)).Some?
            <==> Downloadable(PartAt(root, path))
  {
    hide Text.Trim, Find, AttachmentID, PartAt, IsAttachmentPart, Downloadable;
    FindIsNavigation(root, INLINE_PREFIX, path);
    FindIsNavigation(root, PART_PREFIX, path);
    DownloadableExactly(PartAt(root, path));
  }

  // ---- document order ------------------------------------------------------------------

  /** Address `p` comes before `q` in the document: above it, or in an earlier branch. */
  ghost predicate Before(p: seq<nat>, q: seq<nat>) {
    exists k :: 0 <= k <= |p| && k < |q| && p[..k] == q[..k] && (k == |p| || p[k] < q[k])
  }

  ghost predicate InOrder(qs: seq<seq<nat>>) {
    forall i, j :: 0 <= i < j < |qs| ==> Before(qs[i], qs[j])
  }

  lemma BeforeBelow(n: nat, p: seq<nat>, q: seq<nat>)
    requires Before(p, q)
    ensures Before([n] + p, [n] + q)
  {
    var k :| 0 <= k <= |p| && k < |q| && p[..k] == q[..k] && (k == |p| || p[k] < q[k]);
    assert ([n] + p)[..k + 1] == [n] + p[..k] && ([n] + q)[..k + 1] == [n] + q[..k];
    assert k + 1 == |[n] + p| || ([n] + p)[k + 1] < ([n] + q)[k + 1];
  }

  lemma EarlierBranch(p: seq<nat>, q: seq<nat>)
    requires p != [] && q != [] && p[0] < q[0]
    ensures Before(p, q)
  {
    assert p[..0] == q[..0];
  }

  lemma AboveIsBefore(q: seq<nat>)
    requires q != []
    ensures Before([], q)
  {
    var none: seq<nat> := [];
    assert none[..0] == q[..0];
  }

  /** The references are listed in document order. */
  lemma {:induction false} ListedInOrder(part: Part, path: seq<nat>) returns (qs: seq<seq<nat>>)
    ensures |qs| == |Collect(part, path)| && InOrder(qs)
    ensures forall i :: 0 <= i < |qs| ==> ListedAt(part, path, qs[i], Collect(part, path)[i])
    decreases part, 1
  {
    hide IsAttachmentPart, RefOf, Before;
    qs := [];
    if part.Part? {
      var below := ChildrenInOrder(part, path, |part.parts|);
      var own := Own(part, path);
      qs := (if own == [] then [] else [[]]) + below;
      assert path + [] == path;
      forall i | 0 <= i < |qs| ensures ListedAt(part, path, qs[i], Collect(part, path)[i]) {
        if i >= |own| { assert qs[i] == below[i - |own|]; }
      }
      forall i, j | 0 <= i < j < |qs| ensures Before(qs[i], qs[j]) {
        if i < |own| {
          AboveIsBefore(qs[j]);
        } else {
          assert qs[i] == below[i - |own|] && qs[j] == below[j - |own|];
        }
      }
    }
  }

  lemma {:induction false} ChildrenInOrder(part: Part, path: seq<nat>, n: nat) returns (qs: seq<seq<nat>>)
    requires part.Part? && n <= |part.parts|
    ensures |qs| == |CollectChildren(part, path, n)| && InOrder(qs)
    ensures forall i :: 0 <= i < |qs| ==> |qs[i]| > 0 && qs[i][0] < n
    ensures forall i :: 0 <= i < |qs| ==> ListedAt(part, path, qs[i], CollectChildren(part, path, n)[i])
    decreases part, 0, n
  {
    hide IsAttachmentPart, RefOf, Before;
    qs := [];
    if n > 0 {
      var before := ChildrenInOrder(part, path, n - 1);
      var last := ListedInOrder(part.parts[n - 1], path + [n - 1]);
      qs := before + seq(|last|, i requires 0 <= i < |last| => [n - 1] + last[i]);
      forall i | 0 <= i < |qs| ensures ListedAt(part, path, qs[i], CollectChildren(part, path, n)[i]) {
        if i >= |before| {
          var q := last[i - |before|];
          assert ([n - 1] + q)[1..] == q && path + ([n - 1] + q) == path + [n - 1] + q;
        }
      }
      forall i, j | 0 <= i < j < |qs| ensures Before(qs[i], qs[j]) {
        if i >= |before| {
          BeforeBelow(n - 1, last[i - |before|], last[j - |before|]);
        } else if j >= |before| {
          EarlierBranch(qs[i], qs[j]);
        } else {
          assert qs[i] == before[i] && qs[j] == before[j];
        }
      }
    }
  }

  /** Exactly one of inline data and a Gmail token is present, as the id's prefix says. */
  lemma ListedKind(root: Part, path: seq<nat>, r: Ref)
    requires r in Collect(root, path)
    ensures r.IsInline() != (r.GmailID() != "")
    ensures r.IsInline() <==> INLINE_PREFIX <= r.meta.attachmentID
    ensures !r.IsInline() <==> PART_PREFIX <= r.meta.attachmentID
  {
    hide Text.Trim, Collect;
    var q := ListedHasAddress(root, path, r);
    var part := PartAt(root, q);
    TrimTwice(part.body.attachmentId);
    TrimTwice(part.body.data);
    TrimEmpty();
    var id := r.meta.attachmentID;
    assert id[3] == (if r.gmailID == "" then INLINE_PREFIX else PART_PREFIX)[3];
  }

  ghost predicate SameBody(b: Body, b': Body) {
    b == b' ||
    (b.Body? && b'.Body? && b.data == b'.data && b.size == b'.size && !Blank(b.attachmentId) && !Blank(b'.attachmentId))
  }

  /** The trees differ only in the values of their non-blank Gmail attachment tokens. */
  ghost predicate SameTree(t: Part, t': Part)
    decreases t
  {
    if t.NilPart? || t'.NilPart? then t == t'
    else
      && t.mimeType == t'.mimeType && t.filename == t'.filename && t.headers == t'.headers
      && SameBody(t.body, t'.body)
      && |t.parts| == |t'.parts|
      && forall i :: 0 <= i < |t.parts| ==> SameTree(t.parts[i], t'.parts[i])
  }

  function Metas(refs: seq<Ref>): seq<Meta> {
    seq(|refs|, i requires 0 <= i < |refs| => refs[i].meta)
  }

  lemma MetasConcat(a: seq<Ref>, b: seq<Ref>)
    ensures Metas(a + b) == Metas(a) + Metas(b)
  {}

  lemma OwnStable(t: Part, t': Part, path: seq<nat>)
    requires t.Part? && t'.Part? && SameTree(t, t')
    ensures Metas(Own(t, path)) == Metas(Own(t', path))
  {
    hide Text.Trim, AttachmentID;
    assert PartHeader(t, "Content-Disposition") == PartHeader(t', "Content-Disposition");
    assert PartHeader(t, "Content-ID") == PartHeader(t', "Content-ID");
  }

  /** Attachment metadata, ids included, does not depend on the values of Gmail's
      short-lived attachment tokens. */
  lemma {:induction false} MetadataStable(t: Part, t': Part, path: seq<nat>)
    requires SameTree(t, t')
    ensures Metas(Collect(t, path)) == Metas(Collect(t', path))
    decreases t, 1
  {
    hide IsAttachmentPart, RefOf, Own;
    if t.Part? {
      OwnStable(t, t', path);
      ChildMetadataStable(t, t', path, |t.parts|);
      MetasConcat(Own(t, path), CollectChildren(t, path, |t.parts|));
      MetasConcat(Own(t', path), CollectChildren(t', path, |t'.parts|));
    }
  }

  lemma {:induction false} ChildMetadataStable(t: Part, t': Part, path: seq<nat>, n: nat)
    requires t.Part? && t'.Part? && SameTree(t, t') && n <= |t.parts|
    ensures Metas(CollectChildren(t, path, n)) == Metas(CollectChildren(t', path, n))
    decreases t, 0, n
  {
    hide IsAttachmentPart, RefOf, Own;
    if n > 0 {
      var c, c' := t.parts[n - 1], t'.parts[n - 1];
      ChildMetadataStable(t, t', path, n - 1);
      MetadataStable(c, c', path + [n - 1]);
      MetasConcat(CollectChildren(t, path, n - 1), Collect(c, path + [n - 1]));
      MetasConcat(CollectChildren(t', path, n - 1), Collect(c', path + [n - 1]));
    }
  }
}
