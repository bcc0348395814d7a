/** The body text of a message (internal/gmailapi/message.go): the first text part
    of the MIME tree that has some. */
module Body {
  import opened Options
  import opened Text
  import opened Utf8
  import opened Attachments
  import Base64

  predicate HasMimeType(part: Part, mimeType: string)
    requires part.Part?
  {
    EqualFold(Trim(part.mimeType), mimeType)
  }

  /** What a part of the type decodes to, if it has data that decodes. */
  function OwnText(part: Part, mimeType: string): Option<seq<Byte>>
    requires part.Part?
  {
    if HasMimeType(part, mimeType) && part.body.Body? && part.body.data != "" then Base64.DecodeData(part.body.data)
    else None
  }

  function FindBody(part: Part, mimeType: string): seq<Byte>
    decreases part, 1, 0
  {
    if part.NilPart? then []
    else if OwnText(part, mimeType).Some? then OwnText(part, mimeType).value
    else FindInChildren(part, mimeType, 0)
  }

  function FindInChildren(part: Part, mimeType: string, i: nat): seq<Byte>
    requires part.Part? && i <= |part.parts|
    decreases part, 0, |part.parts| - i
  {
    if i == |part.parts| then []
    else
      var decoded := FindBody(part.parts[i], mimeType);
      if decoded != [] then decoded else FindInChildren(part, mimeType, i + 1)
  }

  method FindPartBody(part: Part, mimeType: string) returns (body: seq<Byte>)
    ensures body == FindBody(part, mimeType)
    decreases part
  {
    if part.NilPart? {
      return [];
    }
    if HasMimeType(part, mimeType) && part.body.Body? && part.body.data != "" {
      var decoded := Base64.DecodeData(part.body.data);
      if decoded.Some? {
        return decoded.value;
      }
    }
    for i := 0 to |part.parts|
      invariant FindInChildren(part, mimeType, i) == FindBody(part, mimeType)
    {
      var decoded := FindPartBody(part.parts[i], mimeType);
      if |decoded| != 0 {
        return decoded;
      }
    }
    return [];
  }

  /** `bestBodyText`: plain text before HTML. */
  function BestBody(part: Part): seq<Byte> {
    var text := FindBody(part, "text/plain");
    if text != [] then text else FindBody(part, "text/html")
  }

  // ---- what is found -----------------------------------------------------------------

  /** The decoded texts in document order; below a part that decodes nothing is read. */
  function Texts(part: Part, mimeType: string): seq<seq<Byte>>
    decreases part, 1, 0
  {
    if part.NilPart? then []
    else if OwnText(part, mimeType).Some? then [OwnText(part, mimeType).value]
    else ChildTexts(part, mimeType, 0)
  }

  function ChildTexts(part: Part, mimeType: string, i: nat): seq<seq<Byte>>
    requires part.Part? && i <= |part.parts|
    decreases part, 0, |part.parts| - i
  {
    if i == |part.parts| then [] else Texts(part.parts[i], mimeType) + ChildTexts(part, mimeType, i + 1)
  }

  function FirstNonEmpty(texts: seq<seq<Byte>>): seq<Byte> {
    if texts == [] then [] else if texts[0] != [] then texts[0] else FirstNonEmpty(texts[1..])
  }

  lemma {:induction false} FirstOfConcat(a: seq<seq<Byte>>, b: seq<seq<Byte>>)
    ensures FirstNonEmpty(a + b) == if FirstNonEmpty(a) != [] then FirstNonEmpty(a) else FirstNonEmpty(b)
  {
    if a == [] {
      assert a + b == b;
    } else {
      assert (a + b)[1..] == a[1..] + b;
      FirstOfConcat(a[1..], b);
    }
  }

  /** The body is the first text in document order that is not empty. */
  lemma {:induction false} FindBodyIsFirst(part: Part, mimeType: string)
    ensures FindBody(part, mimeType) == FirstNonEmpty(Texts(part, mimeType))
    decreases part, 1, 0
  {
    hide OwnText;
    if part.Part? && OwnText(part, mimeType).None? {
      FindInChildrenIsFirst(part, mimeType, 0);
    }
  }

  lemma {:induction false} FindInChildrenIsFirst(part: Part, mimeType: string, i: nat)
    requires part.Part? && i <= |part.parts|
    ensures FindInChildren(part, mimeType, i) == FirstNonEmpty(ChildTexts(part, mimeType, i))
    decreases part, 0, |part.parts| - i
  {
    hide OwnText;
    if i < |part.parts| {
      FindBodyIsFirst(part.parts[i], mimeType);
      FindInChildrenIsFirst(part, mimeType, i + 1);
      FirstOfConcat(Texts(part.parts[i], mimeType), ChildTexts(part, mimeType, i + 1));
    }
  }

  /** A body that is found is the decoded data of a part of that type in the tree. */
  lemma {:induction false} FoundBodyIsPart(part: Part, mimeType: string) returns (path: seq<nat>)
    requires FindBody(part, mimeType) != []
    ensures PartAt(part, path).Part? && OwnText(PartAt(part, path), mimeType) == Some(FindBody(part, mimeType))
    decreases part, 1, 0
  {
    hide OwnText;
    if OwnText(part, mimeType).Some? {
      path := [];
    } else {
      var i, q := FoundInChild(part, mimeType, 0);
      path := [i] + q;
      assert path[1..] == q;
    }
  }

  lemma {:induction false} FoundInChild(part: Part, mimeType: string, i: nat) returns (k: nat, q: seq<nat>)
    requires part.Part? && i <= |part.parts| && FindInChildren(part, mimeType, i) != []
    ensures k < |part.parts| && PartAt(part.parts[k], q).Part?
    ensures OwnText(PartAt(part.parts[k], q), mimeType) == Some(FindInChildren(part, mimeType, i))
    decreases part, 0, |part.parts| - i
  {
    hide OwnText;
    if FindBody(part.parts[i], mimeType) != [] {
      k := i;
      q := FoundBodyIsPart(part.parts[i], mimeType);
    } else {
      k, q := FoundInChild(part, mimeType, i + 1);
    }
  }

  /** What counts as the text of a part. */
  lemma OwnTextExactly(part: Part, mimeType: string, text: seq<Byte>)
    requires part.Part?
    ensures OwnText(part, mimeType) == Some(text) <==>
              && Lower(Trim(part.mimeType)) == Lower(mimeType)
              && part.body.Body? && part.body.data != "" && Base64.DecodeData(part.body.data) == Some(text)
  {
    hide Text.Trim, Base64.DecodeData;
  }

  /** Plain text comes before HTML, wherever in the tree either is. */
  lemma PlainBeforeHTML(root: Part)
    ensures var plain, html := FirstNonEmpty(Texts(root, "text/plain")), FirstNonEmpty(Texts(root, "text/html"));
            BestBody(root) == if plain != [] then plain else html
  {
    FindBodyIsFirst(root, "text/plain");
    FindBodyIsFirst(root, "text/html");
  }

  /** A text part that encodes some bytes has them as its body, padded or not. */
  lemma EncodedBodyShown(root: Part, bytes: seq<Byte>, padded: bool)
    requires root.Part? && root.body.Body? && bytes != [] && root.body.data == Base64.Encode(bytes, padded)
    requires Lower(Trim(root.mimeType)) == "text/plain" || (Lower(Trim(root.mimeType)) == "text/html" && root.parts == [])
    ensures BestBody(root) == bytes
  {
    Base64.DataRecoversBothEncodings(bytes);
    Base64.EncodedTrimmed(bytes, padded);
    LowerCaseTypes();
    hide Text.Trim, Base64.DecodeData, Lower;
    var mimeType := Lower(Trim(root.mimeType));
    if mimeType == "text/html" {
      assert |mimeType| == 9;
      assert mimeType != "text/plain";
      assert OwnText(root, "text/plain").None?;
      assert FindBody(root, "text/plain") == [];
      assert OwnText(root, "text/html") == Some(bytes);
    } else {
      assert OwnText(root, "text/plain") == Some(bytes);
    }
  }

  lemma LowerCaseTypes()
    ensures Lower("text/plain") == "text/plain" && Lower("text/html") == "text/html"
  {}
}
