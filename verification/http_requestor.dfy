/** The HTTP requestor: it turns each subrequest into the method, URI and
    options of an HTTP request, and turns the responses of the HTTP library
    back into the canonical form. The transport itself is a parameter. */
module HttpRequestor {
  import opened Wrappers
  import opened Json
  import opened Text
  import opened Assoc
  import opened ObjectKeys
  import opened Types
  import BlueprintManager

  /** The HTTP methods of the seven actions, in the order of the actions. */
  const Methods := ["GET", "POST", "PATCH", "PUT", "DELETE", "HEAD", "OPTIONS"]

  /** `_actionToMethod(action)`. */
  function ActionToMethod(action: string): (r: Result<string>)
    ensures r.Ok? <==> action in BlueprintManager.Actions
    ensures r.Err? ==> r.error == UnexpectedAction(action)
    ensures r.Ok? ==> r.value in Methods
  {
    match action
    case "view" => Ok("GET")
    case "create" => Ok("POST")
    case "update" => Ok("PATCH")
    case "replace" => Ok("PUT")
    case "delete" => Ok("DELETE")
    case "exists" => Ok("HEAD")
    case "discover" => Ok("OPTIONS")
    case _ => Err(UnexpectedAction(action))
  }

  /** Action i maps to method i, and no two actions share a method. */
  lemma ActionToMethodTable()
    ensures forall i :: 0 <= i < |Methods| ==> ActionToMethod(BlueprintManager.Actions[i]) == Ok(Methods[i])
    ensures forall a, b :: ActionToMethod(a).Ok? && ActionToMethod(a) == ActionToMethod(b) ==> a == b
  {
    forall a, b | ActionToMethod(a).Ok? && ActionToMethod(a) == ActionToMethod(b) ensures a == b {
      MethodNamesAction(a);
      MethodNamesAction(b);
    }
  }

  /** The position of a method among the methods. */
  function MethodIndex(m: string): (i: nat)
    requires m in Methods
    ensures i < |Methods| && Methods[i] == m
  {
    if m == "GET" then 0 else if m == "POST" then 1 else if m == "PATCH" then 2
    else if m == "PUT" then 3 else if m == "DELETE" then 4 else if m == "HEAD" then 5 else 6
  }

  /** The method an action maps to names that action back. */
  lemma MethodNamesAction(a: string)
    requires ActionToMethod(a).Ok?
    ensures a == BlueprintManager.Actions[MethodIndex(ActionToMethod(a).value)]
  {
  }

  /** The options `requestInParallel` hands to the transport for one
      subrequest, with the method already lower-cased. The query is the text
      given to `querystring.parse`, which the model does not interpret. */
  datatype RequestOptions = RequestOptions(
    httpMethod: string,
    uri: string,
    query: string,
    headers: seq<(string, string)>,
    json: bool,
    body: Option<Json>)

  /** `subrequest.uri.split('?')[0]`. */
  function UriOf(uri: string): string {
    Split(uri, "?")[0]
  }

  /** `parts[1] || ''`. */
  function QueryOf(uri: string): string {
    var parts := Split(uri, "?");
    if |parts| > 1 then parts[1] else ""
  }

  predicate NoQuestionMark(s: string) {
    forall k :: 0 <= k < |s| ==> s[k] != '?'
  }

  lemma NoQuestionMarkNotFound(a: string)
    requires NoQuestionMark(a)
    ensures FirstIndex(a, "?").None?
  {
    forall j: nat ensures !OccursAt(a, "?", j) {
      if j < |a| {
        assert a[j..j + 1] == [a[j]];
      }
    }
  }

  lemma QuestionMarkAfter(a: string, rest: string)
    requires NoQuestionMark(a)
    ensures FirstIndex(a + "?" + rest, "?") == Some(|a|)
  {
    var s := a + "?" + rest;
    forall j: nat | j < |a| ensures !OccursAt(s, "?", j) {
      assert s[j] == a[j];
      assert s[j..j + 1] == [a[j]];
    }
    assert s[|a|] == '?';
    assert s[|a|..|a| + 1] == "?";
    assert OccursAt(s, "?", |a|);
    var f := FirstIndex(s, "?");
    FirstIndexIsFirst(s, "?");
    assert f.Some? && !(f.value < |a|) && !(f.value > |a|);
  }

  /** A URI without `?` is the transport URI, with an empty query. */
  lemma UriWithoutQuery(a: string)
    requires NoQuestionMark(a)
    ensures UriOf(a) == a && QueryOf(a) == ""
  {
    NoQuestionMarkNotFound(a);
  }

  /** The transport URI is the text before the first `?`, the query the text
      after it. */
  lemma UriWithQuery(a: string, b: string)
    requires NoQuestionMark(a) && NoQuestionMark(b)
    ensures UriOf(a + "?" + b) == a && QueryOf(a + "?" + b) == b
  {
    var s := a + "?" + b;
    QuestionMarkAfter(a, b);
    assert s[..|a|] == a && s[|a| + 1..] == b;
    NoQuestionMarkNotFound(b);
    assert Split(b, "?") == [b];
    assert Split(s, "?") == [a] + Split(b, "?");
  }

  /** With a second `?`, the query stops there and the rest is dropped. */
  lemma UriWithTwoQueries(a: string, b: string, c: string)
    requires NoQuestionMark(a) && NoQuestionMark(b)
    ensures UriOf(a + "?" + b + "?" + c) == a && QueryOf(a + "?" + b + "?" + c) == b
  {
    var s := a + "?" + b + "?" + c;
    assert s == a + "?" + (b + "?" + c);
    QuestionMarkAfter(a, b + "?" + c);
    assert s[..|a|] == a && s[|a| + 1..] == b + "?" + c;
    QuestionMarkAfter(b, c);
    var t := b + "?" + c;
    assert t[..|b|] == b && t[|b| + 1..] == c;
    assert Split(t, "?") == [b] + Split(c, "?");
    assert Split(s, "?") == [a] + Split(t, "?");
  }

  /** `headers.get('Content-Type') || headers.get('content-type') || ''`. */
  function RequestContentType(entries: seq<(string, string)>): (ct: string)
    ensures Get(entries, "Content-Type").Some? && Get(entries, "Content-Type").value != "" ==> ct == Get(entries, "Content-Type").value
    ensures ct != "" ==> Get(entries, "Content-Type") == Some(ct) || Get(entries, "content-type") == Some(ct)
    ensures Get(entries, "Content-Type").None? || Get(entries, "Content-Type").value == "" ==>
      ct == Get(entries, "content-type").GetOr("")
  {
    match Get(entries, "Content-Type")
    case Some(v) => if v != "" then v else Get(entries, "content-type").GetOr("")
    case None => Get(entries, "content-type").GetOr("")
  }

  /** `!!contentType.match(/[/+]json$/)`. */
  predicate IsJsonType(ct: string) {
    EndsWith(ct, "/json") || EndsWith(ct, "+json")
  }

  /** `options.body` is set only when the subrequest's body is truthy. */
  function BodyOf(body: Option<Json>): (r: Option<Json>)
    ensures r.Some? <==> body.Some? && Truthy(body.value)
    ensures r.Some? ==> r == body
  {
    match body
    case Some(b) => if Truthy(b) then Some(b) else None
    case None => None
  }

  /** The TypeError of calling `forEach` (and then `get`) on headers that
      are not a `Map`. */
  function NotAMap(j: Json): Error {
    match j
    case JNull => TypeError("Cannot read properties of null (reading 'forEach')")
    case JArr(_) => TypeError("subrequest.headers.get is not a function")
    case _ => TypeError("subrequest.headers.forEach is not a function")
  }

  /** What the callback of `requestInParallel` builds for one subrequest,
      stated directly. */
  function OptionsOf(sub: Subrequest): Result<RequestOptions> {
    match sub.headers
    case PlainObject(j) => Err(NotAMap(j))
    case MapHeaders(entries) =>
      var m :- ActionToMethod(sub.action);
      Ok(RequestOptions(
        ToLowerAscii(m),
        UriOf(sub.uri),
        QueryOf(sub.uri),
        SetAll([(RequestIdHeader, sub.requestId)], entries),
        IsJsonType(RequestContentType(entries)),
        BodyOf(sub.body)))
  }

  /** The options exist exactly for a `Map` of headers and one of the seven
      actions; other headers throw a TypeError first, another action throws
      the unexpected-action error. */
  lemma OptionsOutcome(sub: Subrequest)
    ensures OptionsOf(sub).Ok? <==> sub.headers.MapHeaders? && sub.action in BlueprintManager.Actions
    ensures sub.headers.PlainObject? ==> OptionsOf(sub) == Err(NotAMap(sub.headers.value)) && NotAMap(sub.headers.value).TypeError?
    ensures sub.headers.MapHeaders? && sub.action !in BlueprintManager.Actions ==> OptionsOf(sub) == Err(UnexpectedAction(sub.action))
  {
  }

  /** The copy of the subrequest headers over the id header. */
  lemma CopiedHeaders(id: string, entries: seq<(string, string)>)
    requires DistinctKeys(entries)
    ensures var h := SetAll([(RequestIdHeader, id)], entries);
      && (forall k :: Get(h, k) ==
            if k in Keys(entries) then Get(entries, k)
            else if k == RequestIdHeader then Some(id) else None)
      && Keys(h) == [RequestIdHeader] + NewKeys([RequestIdHeader], Keys(entries))
  {
    var start := [(RequestIdHeader, id)];
    assert Keys(start) == [RequestIdHeader];
    forall k ensures Get(SetAll(start, entries), k) ==
      if k in Keys(entries) then Get(entries, k) else if k == RequestIdHeader then Some(id) else None
    {
      SetAllGet(start, entries, k);
      assert start[1..] == [];
      assert Get(start, k) == if k == RequestIdHeader then Some(id) else None;
    }
    SetAllKeys(start, entries);
  }

  /** `options.headers` names the subrequest first and then holds every
      header of the subrequest, a header of the same name winning over the
      id. */
  lemma OptionsHeaders(sub: Subrequest)
    requires OptionsOf(sub).Ok? && DistinctKeys(sub.headers.entries)
    ensures var h, entries := OptionsOf(sub).value.headers, sub.headers.entries;
      && (forall k :: Get(h, k) ==
            if k in Keys(entries) then Get(entries, k)
            else if k == RequestIdHeader then Some(sub.requestId) else None)
      && Keys(h) == [RequestIdHeader] + NewKeys([RequestIdHeader], Keys(entries))
  {
    assert OptionsOf(sub).value.headers == SetAll([(RequestIdHeader, sub.requestId)], sub.headers.entries);
    CopiedHeaders(sub.requestId, sub.headers.entries);
  }

  /** The lower-case HTTP methods `requestInParallel` sends, in the order of the actions. */
  const LowerMethods := ["get", "post", "patch", "put", "delete", "head", "options"]

  /** `_actionToMethod(action).toLowerCase()`: each of the seven actions is
      sent with its lower-case method name. */
  lemma LowerCaseMethods()
    ensures forall i :: 0 <= i < |BlueprintManager.Actions| ==>
      ActionToMethod(BlueprintManager.Actions[i]).Ok? && ToLowerAscii(ActionToMethod(BlueprintManager.Actions[i]).value) == LowerMethods[i]
  {
    ActionToMethodTable();
    forall i | 0 <= i < |Methods| ensures ToLowerAscii(Methods[i]) == LowerMethods[i] {
      assert |ToLowerAscii(Methods[i])| == |LowerMethods[i]|;
    }
  }

  /** `json` holds exactly for a content type ending in `/json` or `+json`,
      the method is the lower-cased HTTP method of the action, and the body
      is passed on exactly when it is truthy. */
  lemma OptionsFlags(sub: Subrequest)
    requires OptionsOf(sub).Ok?
    ensures var o, ct := OptionsOf(sub).value, RequestContentType(sub.headers.entries);
      && (o.json <==> EndsWith(ct, "/json") || EndsWith(ct, "+json"))
      && o.httpMethod == ToLowerAscii(ActionToMethod(sub.action).value)
      && (o.body.Some? <==> sub.body.Some? && Truthy(sub.body.value))
      && (o.body.Some? ==> o.body == sub.body)
  {
  }

  /** The callback of `requestInParallel` for one subrequest, with the
      source's `forEach` over the headers. */
  method BuildOptions(sub: Subrequest) returns (r: Result<RequestOptions>)
    ensures r == OptionsOf(sub)
  {
    var parts := Split(sub.uri, "?");
    var uri := parts[0];
    var query := if |parts| > 1 then parts[1] else "";
    var headers := [(RequestIdHeader, sub.requestId)];
    if sub.headers.PlainObject? {
      return Err(NotAMap(sub.headers.value));
    }
    var entries := sub.headers.entries;
    var i := 0;
    while i < |entries|
      invariant 0 <= i <= |entries|
      invariant headers == SetAll([(RequestIdHeader, sub.requestId)], entries[..i])
    {
      assert entries[..i + 1][..i] == entries[..i];
      headers := Set(headers, entries[i].0, entries[i].1);
      i := i + 1;
    }
    assert entries[..i] == entries;
    var contentType := RequestContentType(entries);
    var json := IsJsonType(contentType);
    var body := None;
    if sub.body.Some? && Truthy(sub.body.value) {
      body := sub.body;
    }
    var m := ActionToMethod(sub.action);
    if m.Err? {
      return Err(m.error);
    }
    r := Ok(RequestOptions(ToLowerAscii(m.value), uri, query, headers, json, body));
  }

  /** `requestInParallel(subrequests)` up to the transport: one set of
      options per subrequest, in order; the first subrequest whose options
      throw ends the `map`. */
  function RequestInParallel(subrequests: seq<Subrequest>): (r: Result<seq<RequestOptions>>)
    ensures r.Ok? <==> forall i :: 0 <= i < |subrequests| ==> OptionsOf(subrequests[i]).Ok?
    ensures r.Ok? ==> |r.value| == |subrequests|
    ensures r.Ok? ==> forall i :: 0 <= i < |subrequests| ==> r.value[i] == OptionsOf(subrequests[i]).value
  {
    var rs := seq(|subrequests|, i requires 0 <= i < |subrequests| => OptionsOf(subrequests[i]));
    assert forall i :: 0 <= i < |subrequests| ==> rs[i] == OptionsOf(subrequests[i]);
    CollectOk(rs);
    Collect(rs)
  }

  /** A response of the HTTP library: its headers are the properties of a
      plain object, in the order they were added. */
  datatype LibResponse = LibResponse(headers: seq<(string, string)>, body: string)

  /** The entries `[name, response.headers[name]]` for the names `Object.keys` lists. */
  function LibEntries(headers: seq<(string, string)>): (entries: seq<(string, string)>)
    ensures Keys(entries) == OwnKeys(Keys(headers))
    ensures forall i :: 0 <= i < |entries| ==> entries[i].1 == Get(headers, entries[i].0).GetOr("")
  {
    var names := OwnKeys(Keys(headers));
    var entries := seq(|names|, i requires 0 <= i < |names| => (names[i], Get(headers, names[i]).GetOr("")));
    assert Keys(entries) == names;
    entries
  }

  /** `translateResponseFromLibFormat(response)`: a `Map` built from
      `Object.keys(response.headers)`, and the body as it is. */
  function TranslateResponseFromLibFormat(response: LibResponse): (r: Response)
    ensures r.body == response.body
  {
    Response(SetAll([], LibEntries(response.headers)), response.body)
  }

  /** The names `Object.keys` lists for distinct property names are distinct
      and are the property names. */
  lemma LibEntriesKeys(headers: seq<(string, string)>, k: string)
    requires DistinctKeys(headers)
    ensures DistinctKeys(LibEntries(headers))
    ensures k in Keys(LibEntries(headers)) <==> k in Keys(headers)
  {
    LibEntriesDistinct(headers);
    OwnKeysOrder(Keys(headers));
    assert k in OwnKeys(Keys(headers)) <==> k in multiset(Keys(headers));
  }

  lemma LibEntriesDistinct(headers: seq<(string, string)>)
    requires DistinctKeys(headers)
    ensures DistinctKeys(LibEntries(headers))
  {
    var ks := Keys(headers);
    var entries := LibEntries(headers);
    assert NoDuplicates(ks);
    OwnKeysDistinct(ks);
    forall i, j | 0 <= i < j < |entries| ensures entries[i].0 != entries[j].0 {
      assert Keys(entries)[i] == entries[i].0 && Keys(entries)[j] == entries[j].0;
    }
  }

  /** One header reads the same after the translation. */
  lemma TranslatedGet(headers: seq<(string, string)>, k: string)
    requires DistinctKeys(headers)
    ensures Get(SetAll([], LibEntries(headers)), k) == Get(headers, k)
  {
    var entries := LibEntries(headers);
    LibEntriesKeys(headers, k);
    SetAllGet([], entries, k);
    LibEntriesGet(headers, k);
    GetDefinedIff(headers, k);
  }

  /** The entries built from `Object.keys` answer `get` as the headers do. */
  lemma LibEntriesGet(headers: seq<(string, string)>, k: string)
    requires DistinctKeys(headers)
    ensures Get(LibEntries(headers), k) == Get(headers, k)
  {
    var entries := LibEntries(headers);
    LibEntriesKeys(headers, k);
    GetDefinedIff(headers, k);
    GetDefinedIff(entries, k);
    if k in Keys(entries) {
      var i :| 0 <= i < |entries| && Keys(entries)[i] == k;
      GetFirst(entries, i);
    }
  }

  /** The translated headers hold the same entries as the library's, in the
      order `Object.keys` lists them. */
  lemma TranslatedHeaders(response: LibResponse)
    requires DistinctKeys(response.headers)
    ensures var h := TranslateResponseFromLibFormat(response).headers;
      && (forall k :: Get(h, k) == Get(response.headers, k))
      && Keys(h) == OwnKeys(Keys(response.headers))
  {
    forall k ensures Get(SetAll([], LibEntries(response.headers)), k) == Get(response.headers, k) {
      TranslatedGet(response.headers, k);
    }
    TranslatedKeys(response.headers);
  }

  /** The names of the built `Map` are those `Object.keys` lists, in order. */
  lemma TranslatedKeys(headers: seq<(string, string)>)
    requires DistinctKeys(headers)
    ensures Keys(SetAll([], LibEntries(headers))) == OwnKeys(Keys(headers))
  {
    var entries := LibEntries(headers);
    LibEntriesKeys(headers, "");
    SetAllKeys([], entries);
    NewKeysOfNothing(Keys(entries));
  }

  lemma {:induction false} GetFirst<V>(m: seq<(string, V)>, i: nat)
    requires i < |m| && DistinctKeys(m)
    ensures Get(m, m[i].0) == Some(m[i].1)
  {
    if i > 0 {
      assert m[0].0 != m[i].0;
      assert m[1..][i - 1] == m[i];
      GetFirst(m[1..], i - 1);
    }
  }

  /** Headers named without array indices come back in insertion order. */
  lemma TranslatedHeadersInOrder(response: LibResponse)
    requires DistinctKeys(response.headers)
    requires forall i :: 0 <= i < |response.headers| ==> !IsArrayIndex(response.headers[i].0)
    ensures TranslateResponseFromLibFormat(response).headers == response.headers
  {
    var ks := Keys(response.headers);
    OwnKeysWithoutIndices(ks);
    TranslatedHeaders(response);
    var h := TranslateResponseFromLibFormat(response).headers;
    assert Keys(h) == ks;
    assert |h| == |response.headers|;
    assert DistinctKeys(h) by {
      forall i, j | 0 <= i < j < |h| ensures h[i].0 != h[j].0 {
        assert Keys(h)[i] == h[i].0 && Keys(h)[j] == h[j].0;
      }
    }
    forall i | 0 <= i < |h| ensures h[i] == response.headers[i] {
      assert Keys(h)[i] == h[i].0;
      assert h[i].0 == response.headers[i].0;
      GetFirst(response.headers, i);
      GetFirst(h, i);
    }
  }

  /** The HTTP requestor as the orchestrator drives it: the options of the
      batch are built, each is handed to `send`, and the first failure wins. */
  function AsRequestor(send: RequestOptions -> Result<LibResponse>): Requestor<LibResponse> {
    Requestor(
      batch => (
        var options :- RequestInParallel(batch);
        Collect(seq(|options|, i requires 0 <= i < |options| => send(options[i])))),
      TranslateResponseFromLibFormat)
  }

  /** The HTTP requestor yields one response per subrequest, in order. */
  lemma DispatchOnePerSubrequest(send: RequestOptions -> Result<LibResponse>, batch: seq<Subrequest>)
    requires AsRequestor(send).dispatch(batch).Ok?
    ensures var out := AsRequestor(send).dispatch(batch).value;
      && |out| == |batch|
      && forall i :: 0 <= i < |batch| ==> send(OptionsOf(batch[i]).value) == Ok(out[i])
  {
    var options := RequestInParallel(batch).value;
    var rs := seq(|options|, i requires 0 <= i < |options| => send(options[i]));
    CollectOk(rs);
  }
}
