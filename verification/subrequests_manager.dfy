/** The orchestrator: it issues the levels of a plan one after the other,
    resolves the tokens of each level against the responses gathered so far,
    and tags every response with the id of the subrequest it answers. */
module SubrequestsManager {
  import opened Wrappers
  import opened Json
  import opened Text
  import opened Assoc
  import opened Types
  import opened TokenReplacements
  import opened JsonPathReplacer
  import opened BlueprintManager

  /** The header the tag goes into. */
  const ContentIdHeader := "Content-ID"

  /** What reading `tree[0]` of an empty tree and reducing it throws. */
  const EmptyTreeError := TypeError("Cannot read properties of undefined (reading 'reduce')")

  /** `_translateResponsesFromLibFormat(responses, requestor)`: one
      translated response per library response, in the same order. */
  function TranslateResponses<L>(responses: seq<L>, translate: L -> Response): (rs: seq<Response>)
    ensures |rs| == |responses|
    ensures forall i :: 0 <= i < |responses| ==> rs[i] == translate(responses[i])
  {
    if |responses| == 0 then []
    else [translate(responses[0])] + TranslateResponses(responses[1..], translate)
  }

  /** `_setRequestIdInResponse(requestId, response)` on a response value: it
      throws when the id is missing or empty, else `Content-ID` becomes
      `<id>` and every other header and the body stay as they were. */
  function Tagged(requestId: Option<string>, r: Response): (t: Result<Response>)
    ensures t.Ok? <==> requestId.Some? && requestId.value != ""
    ensures t.Err? ==> t.error == MissingRequestId
    ensures t.Ok? ==> t.value.body == r.body
    ensures t.Ok? ==> Get(t.value.headers, ContentIdHeader) == Some("<" + requestId.value + ">")
    ensures t.Ok? ==> forall k :: k != ContentIdHeader ==> Get(t.value.headers, k) == Get(r.headers, k)
  {
    if requestId.None? || requestId.value == "" then Err(MissingRequestId)
    else Ok(r.(headers := Set(r.headers, ContentIdHeader, "<" + requestId.value + ">")))
  }

  /** Tagging keeps the header order: a present `Content-ID` keeps its place,
      a new one comes last. */
  lemma TaggedKeys(requestId: Option<string>, r: Response)
    requires Tagged(requestId, r).Ok?
    ensures var ks := Keys(r.headers);
      Keys(Tagged(requestId, r).value.headers) == if ContentIdHeader in ks then ks else ks + [ContentIdHeader]
  {
    SetKeys(r.headers, ContentIdHeader, "<" + requestId.value + ">");
  }

  /** The tag is what the token engine reads back: the Content-ID of a tagged
      response is the id it was tagged with. */
  lemma TaggedContentId(requestId: Option<string>, r: Response)
    requires Tagged(requestId, r).Ok?
    ensures ContentId(Tagged(requestId, r).value) == requestId.value
  {
    var h := "<" + requestId.value + ">";
    assert h[1..|h| - 1] == requestId.value;
  }

  /** A response to a copy made by the token engine (id `base#uri{0}` and
      the like) is found again under the id of the subrequest it was copied
      from. */
  lemma TaggedCopyMatchesBase(base: string, suffix: string, r: Response)
    requires FirstIndex(base, "#").None?
    requires forall k :: 0 <= k < |suffix| ==> !IsLineTerminator(suffix[k])
    requires Tagged(Some(base + "#" + suffix), r).Ok?
    ensures BaseContentId(Tagged(Some(base + "#" + suffix), r).value) == base
  {
    TaggedContentId(Some(base + "#" + suffix), r);
    StripHashOfDerivedId(base, suffix);
  }

  /** `_setRequestIdInResponse(requestId, response)` on the response object,
      in place. */
  method SetRequestIdInResponse(requestId: Option<string>, response: ResponseObject) returns (err: Option<Error>)
    modifies response
    ensures err.None? <==> Tagged(requestId, old(response.Value())).Ok?
    ensures err.None? ==> response.Value() == Tagged(requestId, old(response.Value())).value
    ensures err.Some? ==> err.value == MissingRequestId && response.Value() == old(response.Value())
  {
    if requestId.None? || requestId.value == "" {
      return Some(MissingRequestId);
    }
    response.headers := Set(response.headers, ContentIdHeader, "<" + requestId.value + ">");
    return None;
  }

  /** The tag of one response, from its own `x-subrequest-id`. */
  function TagOf(r: Response): Result<Response> {
    Tagged(Get(r.headers, RequestIdHeader), r)
  }

  /** `_setRequestIdInResponses(responses)`: every response tagged with its
      own `x-subrequest-id`, in order; the first untaggable response throws. */
  function SetRequestIdInResponses(responses: seq<Response>): (r: Result<seq<Response>>)
    ensures r.Ok? <==> forall i :: 0 <= i < |responses| ==> TagOf(responses[i]).Ok?
    ensures r.Ok? ==> |r.value| == |responses|
    ensures r.Ok? ==> forall i :: 0 <= i < |responses| ==> r.value[i] == TagOf(responses[i]).value
    ensures r.Err? ==> r.error == MissingRequestId
  {
    if |responses| == 0 then Ok([])
    else
      var first :- TagOf(responses[0]);
      var rest :- SetRequestIdInResponses(responses[1..]);
      assert forall i :: 0 < i < |responses| ==> responses[i] == responses[1..][i - 1];
      Ok([first] + rest)
  }

  /** After tagging, each response's Content-ID is its own `x-subrequest-id`,
      which stays in place. */
  lemma TaggedResponsesIds(responses: seq<Response>)
    requires SetRequestIdInResponses(responses).Ok?
    ensures var tagged := SetRequestIdInResponses(responses).value;
      forall i :: 0 <= i < |tagged| ==>
        && Get(tagged[i].headers, RequestIdHeader) == Get(responses[i].headers, RequestIdHeader)
        && ContentId(tagged[i]) == Get(responses[i].headers, RequestIdHeader).value
  {
    var tagged := SetRequestIdInResponses(responses).value;
    forall i | 0 <= i < |tagged|
      ensures Get(tagged[i].headers, RequestIdHeader) == Get(responses[i].headers, RequestIdHeader)
      ensures ContentId(tagged[i]) == Get(responses[i].headers, RequestIdHeader).value
    {
      TaggedContentId(Get(responses[i].headers, RequestIdHeader), responses[i]);
    }
  }

  /** One round of `_processBatchesSequence`: the level's tokens are
      replaced against the pool, the batch is dispatched, and the responses
      are translated and tagged. */
  function Round<L>(batch: seq<Subrequest>, pool: seq<Response>, requestor: Requestor<L>, codec: Codec, fuel: nat): Result<seq<Response>> {
    var replaced :- ReplaceBatch(batch, pool, codec, fuel);
    var results :- requestor.dispatch(replaced);
    SetRequestIdInResponses(TranslateResponses(results, requestor.translate))
  }

  /** Every response a round yields carries a Content-ID equal to its own
      `x-subrequest-id`. */
  lemma RoundTags<L>(batch: seq<Subrequest>, pool: seq<Response>, requestor: Requestor<L>, codec: Codec, fuel: nat)
    requires Round(batch, pool, requestor, codec, fuel).Ok?
    ensures var out := Round(batch, pool, requestor, codec, fuel).value;
      forall i :: 0 <= i < |out| ==>
        Get(out[i].headers, RequestIdHeader).Some? && ContentId(out[i]) == Get(out[i].headers, RequestIdHeader).value
  {
    var replaced := ReplaceBatch(batch, pool, codec, fuel).value;
    var translated := TranslateResponses(requestor.dispatch(replaced).value, requestor.translate);
    TaggedResponsesIds(translated);
  }

  /** A round as a function of the level's batch and the pool. */
  type RoundFn = (seq<Subrequest>, seq<Response>) -> Result<seq<Response>>

  /** The rounds that `requestor` runs. */
  function RoundOf<L>(requestor: Requestor<L>, codec: Codec, fuel: nat): RoundFn {
    (batch, pool) => Round(batch, pool, requestor, codec, fuel)
  }

  /** `_processBatchesSequence(tree, requestor, sequence, responses)`, the
      recursion threading the level index and the responses so far, with
      the rounds given by `round`. */
  function ProcessFrom(tree: seq<seq<Subrequest>>, round: RoundFn, sequence: nat, responses: seq<Response>): Result<seq<Response>>
    requires sequence < |tree|
    decreases |tree| - sequence
  {
    var results :- round(tree[sequence], responses);
    var all := responses + results;
    if sequence + 1 == |tree| then Ok(all)
    else ProcessFrom(tree, round, sequence + 1, all)
  }

  /** `request(tree, requestor)`: the rounds from the first level on, with an
      empty pool. An empty tree throws, since its first level is read before
      the end test. */
  function Request<L>(tree: seq<seq<Subrequest>>, requestor: Requestor<L>, codec: Codec, fuel: nat): Result<seq<Response>> {
    if |tree| == 0 then Err(EmptyTreeError)
    else ProcessFrom(tree, RoundOf(requestor, codec, fuel), 0, [])
  }

  /** `outs` are the responses of successful rounds for levels `sequence`,
      `sequence + 1`, …: the first round is issued against `pool`, each
      later one against the pool grown by the responses before it. */
  ghost predicate RoundsOk(tree: seq<seq<Subrequest>>, round: RoundFn, sequence: nat, pool: seq<Response>, outs: seq<seq<Response>>)
    decreases |outs|
  {
    && sequence + |outs| <= |tree|
    && (|outs| > 0 ==>
         && round(tree[sequence], pool) == Ok(outs[0])
         && RoundsOk(tree, round, sequence + 1, pool + outs[0], outs[1..]))
  }

  lemma FlattenCons<T>(x: seq<T>, ys: seq<seq<T>>)
    ensures Flatten([x] + ys) == x + Flatten(ys)
  {
    assert ([x] + ys)[1..] == ys;
  }

  /** In successful rounds, round j is issued against the pool followed by
      the responses of rounds 0 to j - 1 and nothing else. */
  lemma {:induction false} RoundsOkAt(tree: seq<seq<Subrequest>>, round: RoundFn, sequence: nat, pool: seq<Response>, outs: seq<seq<Response>>, j: nat)
    requires RoundsOk(tree, round, sequence, pool, outs) && j < |outs|
    ensures round(tree[sequence + j], pool + Flatten(outs[..j])) == Ok(outs[j])
    decreases j
  {
    if j == 0 {
      assert outs[..0] == [] && pool + Flatten(outs[..0]) == pool;
    } else {
      var first, rest := outs[0], outs[1..];
      RoundsOkAt(tree, round, sequence + 1, pool + first, rest, j - 1);
      assert outs[..j] == [first] + rest[..j - 1];
      FlattenCons(first, rest[..j - 1]);
      assert pool + Flatten(outs[..j]) == pool + first + Flatten(rest[..j - 1]);
      assert rest[j - 1] == outs[j];
    }
  }

  /** Rounds that succeed one after the other, as many as there are levels
      left, make the recursion succeed with the pool followed by their
      responses. */
  lemma {:induction false} ProcessComplete(tree: seq<seq<Subrequest>>, round: RoundFn, sequence: nat, pool: seq<Response>, outs: seq<seq<Response>>)
    requires sequence < |tree|
    requires RoundsOk(tree, round, sequence, pool, outs) && sequence + |outs| == |tree|
    ensures ProcessFrom(tree, round, sequence, pool) == Ok(pool + Flatten(outs))
    decreases |tree| - sequence
  {
    var first, rest := outs[0], outs[1..];
    assert outs == [first] + rest;
    FlattenCons(first, rest);
    if sequence + 1 < |tree| {
      ProcessComplete(tree, round, sequence + 1, pool + first, rest);
      assert pool + first + Flatten(rest) == pool + Flatten(outs);
    } else {
      assert rest == [];
      assert Flatten(rest) == [];
      assert pool + first == pool + Flatten(outs);
    }
  }

  /** The responses of the rounds from level `sequence` on, up to the
      first round that fails or the last level. */
  ghost function Outs(tree: seq<seq<Subrequest>>, round: RoundFn, sequence: nat, pool: seq<Response>): (outs: seq<seq<Response>>)
    requires sequence <= |tree|
    ensures sequence + |outs| <= |tree|
    decreases |tree| - sequence
  {
    if sequence == |tree| then []
    else match round(tree[sequence], pool)
      case Err(_) => []
      case Ok(o) => [o] + Outs(tree, round, sequence + 1, pool + o)
  }

  lemma {:induction false} OutsRoundsOk(tree: seq<seq<Subrequest>>, round: RoundFn, sequence: nat, pool: seq<Response>)
    requires sequence <= |tree|
    ensures RoundsOk(tree, round, sequence, pool, Outs(tree, round, sequence, pool))
    decreases |tree| - sequence
  {
    var outs := Outs(tree, round, sequence, pool);
    if |outs| > 0 {
      OutsRoundsOk(tree, round, sequence + 1, pool + outs[0]);
      assert outs[1..] == Outs(tree, round, sequence + 1, pool + outs[0]);
    }
  }

  /** The recursion runs exactly one round per remaining level: when it
      succeeds, every remaining round succeeds and the result is the pool
      followed by their responses; when it fails, the error is that of the
      first round that fails, after rounds that all succeed. */
  lemma {:induction false} ProcessOutcome(tree: seq<seq<Subrequest>>, round: RoundFn, sequence: nat, pool: seq<Response>)
    requires sequence < |tree|
    ensures var r, outs := ProcessFrom(tree, round, sequence, pool), Outs(tree, round, sequence, pool);
      && RoundsOk(tree, round, sequence, pool, outs)
      && (r.Ok? <==> sequence + |outs| == |tree|)
      && (r.Ok? ==> r.value == pool + Flatten(outs))
      && (r.Err? ==> round(tree[sequence + |outs|], pool + Flatten(outs)) == Err(r.error))
    decreases |tree| - sequence
  {
    OutsRoundsOk(tree, round, sequence, pool);
    var outs := Outs(tree, round, sequence, pool);
    var first := round(tree[sequence], pool);
    if first.Err? {
      assert outs == [];
      assert pool + Flatten(outs) == pool;
    } else {
      var all := pool + first.value;
      var rest := Outs(tree, round, sequence + 1, all);
      assert outs == [first.value] + rest;
      FlattenCons(first.value, rest);
      assert pool + Flatten(outs) == all + Flatten(rest);
      if sequence + 1 == |tree| {
        assert rest == [];
      } else {
        ProcessOutcome(tree, round, sequence + 1, all);
      }
    }
  }

  /** For a tree of n >= 1 levels, `request` runs the rounds one after the
      other, level k's tokens replaced against the responses of levels 0 to
      k - 1 only; it succeeds exactly when all n rounds do, and then yields
      their responses level after level; otherwise it fails with the error of
      the first round that fails. Any n successful rounds give that result. */
  lemma RequestRounds<L>(tree: seq<seq<Subrequest>>, requestor: Requestor<L>, codec: Codec, fuel: nat)
    requires |tree| > 0
    ensures var round, r := RoundOf(requestor, codec, fuel), Request(tree, requestor, codec, fuel);
      var outs := Outs(tree, round, 0, []);
      && (forall j :: 0 <= j < |outs| ==> Round(tree[j], Flatten(outs[..j]), requestor, codec, fuel) == Ok(outs[j]))
      && (r.Ok? <==> |outs| == |tree|)
      && (r.Ok? ==> r.value == Flatten(outs))
      && (r.Err? ==> Round(tree[|outs|], Flatten(outs), requestor, codec, fuel) == Err(r.error))
    ensures var round := RoundOf(requestor, codec, fuel);
      forall outs :: RoundsOk(tree, round, 0, [], outs) && |outs| == |tree| ==> Request(tree, requestor, codec, fuel) == Ok(Flatten(outs))
  {
    var round := RoundOf(requestor, codec, fuel);
    ProcessOutcome(tree, round, 0, []);
    var outs := Outs(tree, round, 0, []);
    assert [] + Flatten(outs) == Flatten(outs);
    forall j | 0 <= j < |outs|
      ensures Round(tree[j], Flatten(outs[..j]), requestor, codec, fuel) == Ok(outs[j])
    {
      RoundsOkAt(tree, round, 0, [], outs, j);
      assert [] + Flatten(outs[..j]) == Flatten(outs[..j]);
    }
    forall outs | RoundsOk(tree, round, 0, [], outs) && |outs| == |tree|
      ensures Request(tree, requestor, codec, fuel) == Ok(Flatten(outs))
    {
      ProcessComplete(tree, round, 0, [], outs);
      assert [] + Flatten(outs) == Flatten(outs);
    }
  }

  /** `request` on an empty tree throws. */
  lemma RequestEmpty<L>(requestor: Requestor<L>, codec: Codec, fuel: nat)
    ensures Request([], requestor, codec, fuel) == Err(EmptyTreeError)
  {
  }
}
