/** The shapes the core passes around: subrequests after defaulting,
    responses in their canonical form, and the errors the core throws. */
module Types {
  import opened Wrappers
  import opened Json

  /** The errors the core throws (each an `Error` in JavaScript), with the data
      its message carries. */
  datatype Error =
    /** No prior response has the Content-ID a token names; `candidates`
        lists the Content-IDs of the pool. */
    | UnresolvableReference(requestId: string, candidates: seq<string>)
    /** A path query produced something other than an array of strings and numbers. */
    | InvalidReplacement(found: Json)
    /** `JSON.parse` threw a SyntaxError on `text`. */
    | InvalidJson(text: string)
    /** The path library threw on the path expression. */
    | PathQueryFailed(path: string)
    /** A response carries no (or an empty) `x-subrequest-id` header. */
    | MissingRequestId
    /** An action outside the seven the HTTP requestor maps. */
    | UnexpectedAction(action: string)
    /** A JavaScript TypeError, such as calling a Map method on a plain object. */
    | TypeError(what: string)
    /** The blueprint schema rejected the input, with its violations. */
    | InvalidBlueprint(violations: seq<string>)
    /** The transport rejected a request. */
    | TransportError(reason: string)
    /** The token expansion went deeper than the fuel the model was given. */
    | FuelExhausted
    /** The dependency layering makes no progress, so the JavaScript loop
        never ends; the model reports it instead. */
    | NonTerminating

  datatype Result<+T> = Ok(value: T) | Err(error: Error) {
    predicate IsFailure() { Err? }
    function PropagateFailure<U>(): Result<U>
      requires Err?
    {
      Err(error)
    }
    function Extract(): T
      requires Ok?
    {
      value
    }
  }

  /** The results of a sequence of steps that each may throw, run in order:
      the first error ends the run. */
  function Collect<T>(rs: seq<Result<T>>): Result<seq<T>> {
    if |rs| == 0 then Ok([])
    else
      var first :- rs[0];
      var rest :- Collect(rs[1..]);
      Ok([first] + rest)
  }

  /** A run succeeds exactly when every step does, and then yields every
      step's value in order. */
  lemma {:induction false} CollectOk<T>(rs: seq<Result<T>>)
    ensures Collect(rs).Ok? <==> forall k :: 0 <= k < |rs| ==> rs[k].Ok?
    ensures Collect(rs).Ok? ==> |Collect(rs).value| == |rs|
    ensures Collect(rs).Ok? ==> forall k :: 0 <= k < |rs| ==> Collect(rs).value[k] == rs[k].value
  {
    if |rs| > 0 {
      CollectOk(rs[1..]);
      assert forall k :: 0 < k < |rs| ==> rs[k] == rs[1..][k - 1];
      if rs[0].Err? {
        assert Collect(rs) == Err(rs[0].error);
      }
    }
  }

  /** Step values `vs` gathered from the first `|vs|` steps stay gathered
      when the next step's value `v` is appended. */
  lemma OkPrefixPush<T>(rs: seq<Result<T>>, vs: seq<T>, v: T)
    requires |vs| < |rs| && rs[|vs|] == Ok(v)
    requires forall k :: 0 <= k < |vs| ==> rs[k] == Ok(vs[k])
    ensures forall k :: 0 <= k < |vs| + 1 ==> rs[k] == Ok((vs + [v])[k])
  {
  }

  /** When every step succeeded with the values `vs`, the run yields `vs`. */
  lemma CollectAllOk<T>(rs: seq<Result<T>>, vs: seq<T>)
    requires |vs| == |rs|
    requires forall k :: 0 <= k < |rs| ==> rs[k] == Ok(vs[k])
    ensures Collect(rs) == Ok(vs)
  {
    CollectOk(rs);
    assert Collect(rs).value == vs;
  }

  /** A run fails with the error of the first step that fails. */
  lemma {:induction false} CollectFirstError<T>(rs: seq<Result<T>>, i: nat)
    requires i < |rs| && rs[i].Err?
    requires forall k :: 0 <= k < i ==> rs[k].Ok?
    ensures Collect(rs) == Err(rs[i].error)
  {
    if i > 0 {
      assert forall k :: 0 <= k < i - 1 ==> rs[1..][k] == rs[k + 1];
      CollectFirstError(rs[1..], i - 1);
    }
  }

  /** The two members of a subrequest that may carry tokens. */
  datatype Location = Uri | Body

  /** The name of a location, as it appears in derived request ids. */
  function LocationName(loc: Location): (n: string)
    ensures n == "uri" || n == "body"
    ensures (n == "uri") <==> loc.Uri?
  {
    match loc
    case Uri => "uri"
    case Body => "body"
  }

  /** A subrequest's `headers` member: the `Map` that defaulting creates, or
      the JSON object of the blueprint item, kept as it is. */
  datatype HeaderField =
    | MapHeaders(entries: seq<(string, string)>)
    | PlainObject(value: Json)

  /** A subrequest after defaulting and validation. */
  datatype Subrequest = Subrequest(
    requestId: string,
    waitFor: string,
    uri: string,
    action: string,
    body: Option<Json>,
    headers: HeaderField,
    resolved: bool)

  /** A response in the canonical form: headers as an insertion-ordered `Map`
      and the body as text. */
  datatype Response = Response(headers: seq<(string, string)>, body: string)

  /** The header that carries the id of the subrequest a request or a
      response belongs to. */
  const RequestIdHeader := "x-subrequest-id"

  /** The requestor the orchestrator drives, in the synchronous form the
      model gives it: `dispatch` issues a batch (`requestInParallel` with
      `Promise.all` over its result) and yields the responses in the
      library's own shape or the first error; `translate` is
      `translateResponseFromLibFormat`. */
  datatype Requestor<!L> = Requestor(
    dispatch: seq<Subrequest> -> Result<seq<L>>,
    translate: L -> Response)

  /** A response object that the core updates in place. */
  class ResponseObject {
    var headers: seq<(string, string)>
    var body: string

    constructor (r: Response)
      ensures headers == r.headers && body == r.body
    {
      headers := r.headers;
      body := r.body;
    }

    function Value(): Response
      reads this
    {
      Response(headers, body)
    }
  }
}
