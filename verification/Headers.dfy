/** Message headers and their lookup (internal/gmailapi/message.go). */
module Headers {
  import opened Text

  type Header = (string, string)

  /** The value of the first header with the name, in any letter case. */
  function HeaderValue(headers: seq<Header>, name: string): string {
    if headers == [] then ""
    else if EqualFold(headers[0].0, name) then headers[0].1
    else HeaderValue(headers[1..], name)
  }

  /** The first header with the name counts; without one the value is empty. */
  lemma {:induction false} FirstHeader(headers: seq<Header>, name: string, k: nat)
    requires k <= |headers| && forall i :: 0 <= i < k ==> Lower(headers[i].0) != Lower(name)
    ensures k == |headers| ==> HeaderValue(headers, name) == ""
    ensures k < |headers| && Lower(headers[k].0) == Lower(name) ==> HeaderValue(headers, name) == headers[k].1
  {
    if k > 0 { FirstHeader(headers[1..], name, k - 1); }
  }
}
