/** What every response merger shares: the CRLF line terminator, the
    cleaning of a sub-response body and the negotiation of the sub content
    type of the merged response. */
module ResponseMergerBase {
  import opened Wrappers
  import opened Text
  import opened Assoc
  import opened Types

  /** `getCrlf()`. */
  const Crlf := "\r\n"

  /** The content type the negotiation falls back to. */
  const DefaultType := "application/json"

  /** `_cleanResponse(response)`: `body.replace(/\r\n$/, '')` removes one
      CRLF at the very end of the body (the expression has no `m` flag, so
      `$` only matches at the end) and nothing else. */
  function Cleaned(r: Response): (c: Response)
    ensures c.headers == r.headers
    ensures EndsWith(r.body, Crlf) ==> c.body + Crlf == r.body
    ensures !EndsWith(r.body, Crlf) ==> c.body == r.body
  {
    if EndsWith(r.body, Crlf) then r.(body := r.body[..|r.body| - 2]) else r
  }

  /** The cleaned body is a prefix of the body, shorter by 0 or 2
      characters, so every CR and LF before the last two characters stays. */
  lemma CleanedIsPrefix(r: Response)
    ensures Cleaned(r).body <= r.body
    ensures |r.body| - |Cleaned(r).body| in {0, 2}
    ensures forall i :: 0 <= i < |r.body| - 2 ==> Cleaned(r).body[i] == r.body[i]
  {
    if EndsWith(r.body, Crlf) {
      assert r.body == Cleaned(r).body + Crlf;
    }
  }

  /** Only a single CRLF goes: a body ending in two keeps the first. */
  lemma CleanedOnce(b: string)
    ensures Cleaned(Response([], b + Crlf + Crlf)).body == b + Crlf
  {
    assert EndsWith(b + Crlf + Crlf, Crlf);
  }

  /** `_cleanResponse(response)` on the response object, in place. */
  method CleanResponse(response: ResponseObject) returns (same: ResponseObject)
    modifies response
    ensures same == response
    ensures response.Value() == Cleaned(old(response.Value()))
  {
    if EndsWith(response.body, Crlf) {
      response.body := response.body[..|response.body| - 2];
    }
    same := response;
  }

  /** The values the negotiation's `output` and `ct` take: `null`,
      `undefined` or a string. */
  datatype Slot = Null | Undefined | Str(s: string)

  /** `headers.get('Content-Type') || headers.get('content-type')`: the
      first is taken when it is a non-empty string. */
  function ContentTypeOf(r: Response): (ct: Slot)
    ensures ct != Null
    ensures Get(r.headers, "Content-Type").Some? && Get(r.headers, "Content-Type").value != "" ==>
      ct == Str(Get(r.headers, "Content-Type").value)
  {
    var first := Get(r.headers, "Content-Type");
    if first.Some? && first.value != "" then Str(first.value)
    else
      match Get(r.headers, "content-type")
      case None => Undefined
      case Some(v) => Str(v)
  }

  /** Every response has content type `ct`. */
  predicate AllHave(rs: seq<Response>, ct: Slot) {
    forall i :: 0 <= i < |rs| ==> ContentTypeOf(rs[i]) == ct
  }

  /** The negotiated sub content type, stated directly: the shared content
      type when every response has the same non-empty one, else the default. */
  function Negotiate(rs: seq<Response>): string {
    if |rs| > 0 && AllHave(rs, ContentTypeOf(rs[0])) && ContentTypeOf(rs[0]).Str? && ContentTypeOf(rs[0]).s != ""
    then ContentTypeOf(rs[0]).s
    else DefaultType
  }

  /** The negotiation yields `c` when all responses agree on a non-empty
      `c`, and the default whenever two responses disagree or there are none. */
  lemma NegotiateCases(rs: seq<Response>, c: string)
    ensures |rs| > 0 && c != "" && AllHave(rs, Str(c)) ==> Negotiate(rs) == c
    ensures |rs| == 0 ==> Negotiate(rs) == DefaultType
    ensures forall i, j :: 0 <= i < |rs| && 0 <= j < |rs| && ContentTypeOf(rs[i]) != ContentTypeOf(rs[j]) ==>
      Negotiate(rs) == DefaultType
    ensures Negotiate(rs) != DefaultType ==> AllHave(rs, Str(Negotiate(rs)))
  {
  }

  /** `_negotiateSubContentType(responses)`, with the source's loop. */
  method NegotiateSubContentType(responses: seq<Response>) returns (ct: string)
    ensures ct == Negotiate(responses)
  {
    var output := Null;
    var i := 0;
    while i < |responses|
      invariant 0 <= i <= |responses|
      invariant i == 0 <==> output == Null
      invariant i > 0 ==> output == if AllHave(responses[..i], ContentTypeOf(responses[0])) then ContentTypeOf(responses[0]) else Str(DefaultType)
    {
      var c := ContentTypeOf(responses[i]);
      if output == Null {
        output := c;
      }
      if output != c {
        output := Str(DefaultType);
      }
      assert responses[..i + 1][i] == responses[i];
      assert forall k :: 0 <= k < i ==> responses[..i + 1][k] == responses[..i][k];
      i := i + 1;
    }
    assert responses[..i] == responses;
    ct := if output.Str? && output.s != "" then output.s else DefaultType;
  }
}
