/** The token substitution engine: a subrequest whose URI or body holds
    `{{id@path}}` tokens is expanded into one copy per combination of the
    values the tokens resolve to, URI tokens first, then body tokens, until no
    copy holds a token. */
module JsonPathReplacer {
  import opened Wrappers
  import opened Json
  import opened Text
  import opened Assoc
  import opened ObjectKeys
  import opened Types
  import opened TokenScanner
  import opened LiteralReplace
  import opened TokenReplacements
  import opened CartesianPoints

  /** One replacement of a point: the token text and the value put in its place. */
  datatype Replacement = Replacement(token: string, value: Json)

  /** `resolutions.map(value => ({ token, value }))`. */
  function Tag(token: string, vals: seq<Json>): (g: seq<Replacement>)
    ensures |g| == |vals|
    ensures forall k :: 0 <= k < |vals| ==> g[k] == Replacement(token, vals[k])
  {
    seq(|vals|, k requires 0 <= k < |vals| => Replacement(token, vals[k]))
  }

  /** The groups pushed for the tokens of one id, in the order `tokens`. */
  function GroupsOfTokens(inner: seq<(string, seq<Json>)>, tokens: seq<string>): seq<seq<Replacement>> {
    if |tokens| == 0 then []
    else GroupsOfTokens(inner, tokens[..|tokens| - 1]) + [Tag(tokens[|tokens| - 1], Get(inner, tokens[|tokens| - 1]).GetOr([]))]
  }

  /** One group per token, in the order of the tokens, each pairing the
      token with every value of its cell. */
  lemma {:induction false} GroupsOfTokensSpec(inner: seq<(string, seq<Json>)>, tokens: seq<string>)
    ensures |GroupsOfTokens(inner, tokens)| == |tokens|
    ensures forall k :: 0 <= k < |tokens| ==> GroupsOfTokens(inner, tokens)[k] == Tag(tokens[k], Get(inner, tokens[k]).GetOr([]))
  {
    if |tokens| > 0 {
      var init := tokens[..|tokens| - 1];
      GroupsOfTokensSpec(inner, init);
      assert forall k :: 0 <= k < |init| ==> init[k] == tokens[k];
    }
  }

  /** The groups pushed for the ids `ids`, one after the other. */
  function GroupsOfIds(tr: Table, ids: seq<string>): seq<seq<Replacement>> {
    if |ids| == 0 then []
    else
      var inner := Get(tr, ids[|ids| - 1]).GetOr([]);
      GroupsOfIds(tr, ids[..|ids| - 1]) + GroupsOfTokens(inner, OwnKeys(Keys(inner)))
  }

  /** `groupedByToken`: the ids in `Object.keys` order and, within an id,
      its tokens in `Object.keys` order. */
  function Groups(tr: Table): seq<seq<Replacement>> {
    GroupsOfIds(tr, OwnKeys(Keys(tr)))
  }

  /** The id of the `i`-th copy: `${requestId}#${location}{${i}}`. */
  function DerivedId(id: string, loc: Location, i: nat): (d: string)
    ensures id <= d
  {
    id + "#" + LocationName(loc) + "{" + NatToString(i) + "}"
  }

  /** Distinct copies get distinct ids. */
  lemma DerivedIdsDistinct(id: string, loc: Location, i: nat, j: nat)
    requires DerivedId(id, loc, i) == DerivedId(id, loc, j)
    ensures i == j
  {
    var p := id + "#" + LocationName(loc) + "{";
    var a, b := NatToString(i) + "}", NatToString(j) + "}";
    assert DerivedId(id, loc, i) == p + a;
    assert DerivedId(id, loc, j) == p + b;
    assert a == (p + a)[|p|..];
    assert b == (p + b)[|p|..];
    assert NatToString(i) == a[..|a| - 1];
    assert NatToString(j) == b[..|b| - 1];
    NatToStringInjective(i, j);
  }

  /** `_serializeMember`: the URI as it is, the body through `JSON.stringify`.
      An absent body stringifies to `undefined`, on which `replace` throws. */
  function SerializeMember(loc: Location, sub: Subrequest, codec: Codec): (r: Result<string>)
    ensures loc.Uri? ==> r == Ok(sub.uri)
    ensures loc.Body? ==> (r.Ok? <==> sub.body.Some?)
    ensures loc.Body? && sub.body.Some? ==> r == Ok(codec.stringify(sub.body.value))
  {
    match loc
    case Uri => Ok(sub.uri)
    case Body =>
      match sub.body
      case None => Err(TypeError("tokenSubject.replace of undefined"))
      case Some(b) => Ok(codec.stringify(b))
  }

  /** `_deserializeMember` stored back into the member: the URI as it is,
      the body through `JSON.parse`, which throws on text that is not JSON. */
  function DeserializeMember(loc: Location, sub: Subrequest, text: string, codec: Codec): (r: Result<Subrequest>)
    ensures loc.Uri? ==> r == Ok(sub.(uri := text))
    ensures loc.Body? ==> (r.Ok? <==> codec.parse(text).Some?)
    ensures loc.Body? && r.Ok? ==> r.value == sub.(body := codec.parse(text))
    ensures loc.Body? && r.Err? ==> r.error == InvalidJson(text)
  {
    match loc
    case Uri => Ok(sub.(uri := text))
    case Body =>
      match codec.parse(text)
      case None => Err(InvalidJson(text))
      case Some(j) => Ok(sub.(body := Some(j)))
  }

  /** A serialized member read back is the member itself, for a JSON codec
      whose `parse` undoes its `stringify`. */
  lemma MemberRoundTrip(loc: Location, sub: Subrequest, codec: Codec)
    requires SerializeMember(loc, sub, codec).Ok?
    requires forall j :: codec.parse(codec.stringify(j)) == Some(j)
    ensures DeserializeMember(loc, sub, SerializeMember(loc, sub, codec).value, codec) == Ok(sub)
  {
  }

  /** The replacements of a point done one after the other on the same text. */
  function ApplyPoint(point: seq<Replacement>, subject: string): string
    decreases |point|
  {
    if |point| == 0 then subject
    else ApplyPoint(point[1..], ReplaceTokenSubject(point[0].token, ToJsString(point[0].value), subject))
  }

  /** A point whose tokens are absent from the text leaves it unchanged. */
  lemma {:induction false} ApplyAbsentPoint(point: seq<Replacement>, subject: string)
    requires forall k :: 0 <= k < |point| ==> |point[k].token| > 0 && FirstIndex(subject, point[k].token).None?
    ensures ApplyPoint(point, subject) == subject
    decreases |point|
  {
    if |point| > 0 {
      AbsentTokenUnchanged(point[0].token, ToJsString(point[0].value), subject);
      assert forall k :: 0 <= k < |point[1..]| ==> point[1..][k] == point[k + 1];
      ApplyAbsentPoint(point[1..], subject);
    }
  }

  /** The `i`-th copy: a clone with the derived id whose member has the
      replacements of `point` done on it. */
  function Clone(sub: Subrequest, loc: Location, i: nat, point: seq<Replacement>, codec: Codec): Result<Subrequest> {
    var subject :- SerializeMember(loc, sub, codec);
    DeserializeMember(loc, sub.(requestId := DerivedId(sub.requestId, loc, i)), ApplyPoint(point, subject), codec)
  }

  /** The copies for the points, one per point in order; the first one that throws ends it. */
  function ClonesOf(sub: Subrequest, loc: Location, points: seq<seq<Replacement>>, codec: Codec): (rs: seq<Result<Subrequest>>)
    ensures |rs| == |points|
    ensures forall i :: 0 <= i < |points| ==> rs[i] == Clone(sub, loc, i, points[i], codec)
  {
    seq(|points|, i requires 0 <= i < |points| => Clone(sub, loc, i, points[i], codec))
  }

  /** `_doReplaceTokensInLocation(tokenReplacements, subrequest, location)`;
      with no groups `_getPoints` reads a property of `undefined` and throws. */
  function DoReplace(tr: Table, sub: Subrequest, loc: Location, codec: Codec): Result<seq<Subrequest>> {
    var groups := Groups(tr);
    if |groups| == 0 then Err(TypeError("groupedByToken[0] is undefined"))
    else Collect(ClonesOf(sub, loc, Points(groups), codec))
  }

  /** A copy of the URI is the subrequest with the derived id and the
      replaced URI; it cannot fail. */
  lemma CloneOfUri(sub: Subrequest, i: nat, point: seq<Replacement>, codec: Codec)
    ensures Clone(sub, Uri, i, point, codec) == Ok(sub.(requestId := DerivedId(sub.requestId, Uri, i), uri := ApplyPoint(point, sub.uri)))
  {
  }

  /** A copy of the body is the subrequest with the derived id and the body
      parsed back from the replaced text; it fails without a body, or with
      the text when that is not JSON. */
  lemma CloneOfBody(sub: Subrequest, i: nat, point: seq<Replacement>, codec: Codec)
    ensures var c := Clone(sub, Body, i, point, codec);
      && (sub.body.None? ==> c.Err? && c.error.TypeError?)
      && (sub.body.Some? ==>
            var text := ApplyPoint(point, codec.stringify(sub.body.value));
            && (c.Ok? <==> codec.parse(text).Some?)
            && (c.Ok? ==> c.value == sub.(requestId := DerivedId(sub.requestId, Body, i), body := codec.parse(text)))
            && (c.Err? ==> c.error == InvalidJson(text)))
  {
  }

  /** A copy differs from the subrequest in its id and its target member only. */
  lemma CloneFields(sub: Subrequest, loc: Location, i: nat, point: seq<Replacement>, codec: Codec)
    requires Clone(sub, loc, i, point, codec).Ok?
    ensures var c := Clone(sub, loc, i, point, codec).value;
      && c.requestId == DerivedId(sub.requestId, loc, i)
      && (loc.Uri? ==> c.body == sub.body)
      && (loc.Body? ==> c.uri == sub.uri && c.body.Some?)
      && c.(requestId := sub.requestId, uri := sub.uri, body := sub.body) == sub
  {
    if loc.Uri? {
      CloneOfUri(sub, i, point, codec);
    } else {
      CloneOfBody(sub, i, point, codec);
    }
  }

  /** One copy per point of the groups, in order; a URI expansion cannot
      fail once there are groups. */
  lemma DoReplaceCopies(tr: Table, sub: Subrequest, loc: Location, codec: Codec)
    ensures DoReplace(tr, sub, loc, codec).Ok? ==> |Groups(tr)| > 0
    ensures loc.Uri? && |Groups(tr)| > 0 ==> DoReplace(tr, sub, loc, codec).Ok?
    ensures DoReplace(tr, sub, loc, codec).Ok? ==>
      var cs := DoReplace(tr, sub, loc, codec).value;
      var pts := Points(Groups(tr));
      |cs| == Product(Groups(tr)) && |cs| == |pts|
      && forall i :: 0 <= i < |cs| ==> Clone(sub, loc, i, pts[i], codec) == Ok(cs[i])
  {
    var groups := Groups(tr);
    if |groups| > 0 {
      var pts := Points(groups);
      var rs := ClonesOf(sub, loc, pts, codec);
      CollectOk(rs);
      PointsShape(groups);
      if loc.Uri? {
        forall k | 0 <= k < |rs| ensures rs[k].Ok? {
          CloneOfUri(sub, k, pts[k], codec);
        }
      }
    }
  }

  /** The `i`-th copy has id `id#location{i}` and differs from the
      subrequest in its id and its target member only. */
  lemma DoReplaceIds(tr: Table, sub: Subrequest, loc: Location, codec: Codec)
    requires DoReplace(tr, sub, loc, codec).Ok?
    ensures var cs := DoReplace(tr, sub, loc, codec).value;
      forall i :: 0 <= i < |cs| ==>
        && cs[i].requestId == DerivedId(sub.requestId, loc, i)
        && cs[i].(requestId := sub.requestId, uri := sub.uri, body := sub.body) == sub
        && (loc.Uri? ==> cs[i].body == sub.body)
        && (loc.Body? ==> cs[i].uri == sub.uri && cs[i].body.Some?)
  {
    DoReplaceCopies(tr, sub, loc, codec);
    var cs := DoReplace(tr, sub, loc, codec).value;
    var pts := Points(Groups(tr));
    forall i | 0 <= i < |cs|
      ensures cs[i].requestId == DerivedId(sub.requestId, loc, i)
      ensures cs[i].(requestId := sub.requestId, uri := sub.uri, body := sub.body) == sub
      ensures loc.Uri? ==> cs[i].body == sub.body
      ensures loc.Body? ==> cs[i].uri == sub.uri && cs[i].body.Some?
    {
      CloneFields(sub, loc, i, pts[i], codec);
    }
  }

  lemma GroupsOfTokensStep(inner: seq<(string, seq<Json>)>, tokens: seq<string>, b: nat)
    requires b < |tokens|
    ensures GroupsOfTokens(inner, tokens[..b + 1]) == GroupsOfTokens(inner, tokens[..b]) + [Tag(tokens[b], Get(inner, tokens[b]).GetOr([]))]
  {
    assert tokens[..b + 1][..b] == tokens[..b];
  }

  lemma GroupsOfIdsStep(tr: Table, ids: seq<string>, a: nat)
    requires a < |ids|
    ensures var inner := Get(tr, ids[a]).GetOr([]);
      GroupsOfIds(tr, ids[..a + 1]) == GroupsOfIds(tr, ids[..a]) + GroupsOfTokens(inner, OwnKeys(Keys(inner)))
  {
    assert ids[..a + 1][..a] == ids[..a];
  }

  /** The inner loop of the grouping: one group per token of an id. */
  method TokenGroups(resolutionsPerToken: seq<(string, seq<Json>)>, tokens: seq<string>) returns (groups: seq<seq<Replacement>>)
    ensures groups == GroupsOfTokens(resolutionsPerToken, tokens)
  {
    groups := [];
    var b := 0;
    while b < |tokens|
      invariant 0 <= b <= |tokens|
      invariant groups == GroupsOfTokens(resolutionsPerToken, tokens[..b])
    {
      var resolutions := Get(resolutionsPerToken, tokens[b]).GetOr([]);
      groups := groups + [Tag(tokens[b], resolutions)];
      GroupsOfTokensStep(resolutionsPerToken, tokens, b);
      b := b + 1;
    }
    assert tokens[..b] == tokens;
  }

  /** The first loops of `_doReplaceTokensInLocation`: the groups are
      pushed id by id and, within an id, token by token. */
  method GroupByToken(tr: Table) returns (groupedByToken: seq<seq<Replacement>>)
    ensures groupedByToken == Groups(tr)
  {
    groupedByToken := [];
    var ids := OwnKeys(Keys(tr));
    var a := 0;
    while a < |ids|
      invariant 0 <= a <= |ids|
      invariant groupedByToken == GroupsOfIds(tr, ids[..a])
    {
      var resolutionsPerToken := Get(tr, ids[a]).GetOr([]);
      var groups := TokenGroups(resolutionsPerToken, OwnKeys(Keys(resolutionsPerToken)));
      groupedByToken := groupedByToken + groups;
      GroupsOfIdsStep(tr, ids, a);
      a := a + 1;
    }
    assert ids[..a] == ids;
  }

  /** The body of the loop over the points: the clone gets id
      `id#location{index}` and the point's replacements are done one after
      the other on its serialized member. */
  method CloneForPoint(sub: Subrequest, loc: Location, index: nat, point: seq<Replacement>, codec: Codec) returns (r: Result<Subrequest>)
    ensures r == Clone(sub, loc, index, point, codec)
  {
    var serialized := SerializeMember(loc, sub, codec);
    if serialized.Err? {
      return Err(serialized.error);
    }
    var tokenSubject := serialized.value;
    var k := 0;
    while k < |point|
      invariant 0 <= k <= |point|
      invariant ApplyPoint(point[k..], tokenSubject) == ApplyPoint(point, serialized.value)
    {
      assert point[k..][1..] == point[k + 1..];
      tokenSubject := ReplaceTokenSubject(point[k].token, ToJsString(point[k].value), tokenSubject);
      k := k + 1;
    }
    assert point[k..] == [];
    r := DeserializeMember(loc, sub.(requestId := DerivedId(sub.requestId, loc, index)), tokenSubject, codec);
  }

  /** The loop over the points: one clone per point, pushed in order, the
      index counting the clones. */
  method ClonesForPoints(sub: Subrequest, loc: Location, points: seq<seq<Replacement>>, codec: Codec) returns (r: Result<seq<Subrequest>>)
    ensures r == Collect(ClonesOf(sub, loc, points, codec))
  {
    ghost var rs := ClonesOf(sub, loc, points, codec);
    var replacements: seq<Subrequest> := [];
    var index := 0;
    while index < |points|
      invariant 0 <= index <= |points|
      invariant |replacements| == index
      invariant forall k :: 0 <= k < index ==> rs[k] == Ok(replacements[k])
    {
      var cloned := CloneForPoint(sub, loc, index, points[index], codec);
      if cloned.Err? {
        CollectFirstError(rs, index);
        return Err(cloned.error);
      }
      OkPrefixPush(rs, replacements, cloned.value);
      replacements := replacements + [cloned.value];
      index := index + 1;
    }
    CollectAllOk(rs, replacements);
    r := Ok(replacements);
  }

  /** `_doReplaceTokensInLocation(tokenReplacements, subrequest, location)`. */
  method DoReplaceTokensInLocation(tr: Table, sub: Subrequest, loc: Location, codec: Codec) returns (r: Result<seq<Subrequest>>)
    ensures r == DoReplace(tr, sub, loc, codec)
  {
    var groupedByToken := GroupByToken(tr);
    if |groupedByToken| == 0 {
      return Err(TypeError("groupedByToken[0] is undefined"));
    }
    var points := GetPoints(groupedByToken);
    r := ClonesForPoints(sub, loc, points, codec);
  }

  /** One step of `replaceItem`: the replacements of both members are
      computed first (so an error in either throws); URI tokens are expanded
      first and body tokens only when the URI has none. `None` stands for a
      subrequest without tokens. */
  function Expand(sub: Subrequest, pool: seq<Response>, codec: Codec): Result<Option<seq<Subrequest>>> {
    var uriReplacements :- ExtractTokenReplacements(sub, Uri, pool, codec);
    var bodyReplacements :- ExtractTokenReplacements(sub, Body, pool, codec);
    if |uriReplacements| != 0 then
      var copies :- DoReplace(uriReplacements, sub, Uri, codec);
      Ok(Some(copies))
    else if |bodyReplacements| != 0 then
      var copies :- DoReplace(bodyReplacements, sub, Body, codec);
      Ok(Some(copies))
    else Ok(None)
  }

  /** A replacement step, as `Expand` with its pool and libraries fixed. */
  type Step = Subrequest -> Result<Option<seq<Subrequest>>>

  /** `replaceItem` over a step: a subrequest without tokens comes back
      alone, marked resolved; the copies of an expansion are replaced again
      as a batch. Each expansion spends one unit of `fuel`. */
  function ExpandItem(step: Step, sub: Subrequest, fuel: nat): Result<seq<Subrequest>>
    decreases fuel, 0
  {
    var expanded :- step(sub);
    match expanded
    case None => Ok([sub.(resolved := true)])
    case Some(copies) =>
      if fuel == 0 then Err(FuelExhausted) else ExpandBatch(step, copies, fuel - 1)
  }

  /** `replaceBatch` over a step: the items' results concatenated in order. */
  function ExpandBatch(step: Step, batch: seq<Subrequest>, fuel: nat): Result<seq<Subrequest>>
    decreases fuel, 1, |batch|
  {
    if |batch| == 0 then Ok([])
    else
      var first :- ExpandItem(step, batch[0], fuel);
      var rest :- ExpandBatch(step, batch[1..], fuel);
      Ok(first + rest)
  }

  /** `replaceItem(subrequest, pool)`. */
  function ReplaceItem(sub: Subrequest, pool: seq<Response>, codec: Codec, fuel: nat): Result<seq<Subrequest>> {
    ExpandItem(s => Expand(s, pool, codec), sub, fuel)
  }

  /** `replaceBatch(batch, pool)`. */
  function ReplaceBatch(batch: seq<Subrequest>, pool: seq<Response>, codec: Codec, fuel: nat): Result<seq<Subrequest>> {
    ExpandBatch(s => Expand(s, pool, codec), batch, fuel)
  }

  /** A batch of one is its item. */
  lemma ExpandBatchOfOne(step: Step, sub: Subrequest, fuel: nat)
    ensures ExpandBatch(step, [sub], fuel) == ExpandItem(step, sub, fuel)
  {
    assert [sub][1..] == [];
    var r := ExpandItem(step, sub, fuel);
    if r.Ok? {
      assert r.value + [] == r.value;
    }
  }

  /** Replacing a concatenation of batches concatenates their replacements;
      the first error wins. */
  lemma {:induction false} ExpandBatchAppend(step: Step, a: seq<Subrequest>, b: seq<Subrequest>, fuel: nat)
    ensures var ra, rb := ExpandBatch(step, a, fuel), ExpandBatch(step, b, fuel);
      ExpandBatch(step, a + b, fuel) ==
        if ra.Err? then ra else if rb.Err? then rb else Ok(ra.value + rb.value)
  {
    if |a| == 0 {
      assert a + b == b;
      var rb := ExpandBatch(step, b, fuel);
      if rb.Ok? {
        assert [] + rb.value == rb.value;
      }
    } else {
      assert (a + b)[0] == a[0];
      assert (a + b)[1..] == a[1..] + b;
      ExpandBatchAppend(step, a[1..], b, fuel);
      var first := ExpandItem(step, a[0], fuel);
      var ra', rb := ExpandBatch(step, a[1..], fuel), ExpandBatch(step, b, fuel);
      if first.Ok? && ra'.Ok? && rb.Ok? {
        assert first.value + (ra'.value + rb.value) == (first.value + ra'.value) + rb.value;
      }
    }
  }

  /** `replaceBatch` is the in-order concatenation of `replaceItem` over the
      batch: a batch of one is its item, and a concatenation of batches gives
      the concatenation of their results (its length the sum of theirs). */
  lemma ReplaceBatchConcat(a: seq<Subrequest>, b: seq<Subrequest>, sub: Subrequest, pool: seq<Response>, codec: Codec, fuel: nat)
    ensures ReplaceBatch([sub], pool, codec, fuel) == ReplaceItem(sub, pool, codec, fuel)
    ensures var ra, rb := ReplaceBatch(a, pool, codec, fuel), ReplaceBatch(b, pool, codec, fuel);
      ReplaceBatch(a + b, pool, codec, fuel) ==
        if ra.Err? then ra else if rb.Err? then rb else Ok(ra.value + rb.value)
  {
    ExpandBatchOfOne(s => Expand(s, pool, codec), sub, fuel);
    ExpandBatchAppend(s => Expand(s, pool, codec), a, b, fuel);
  }

  /** More fuel changes nothing once the fuel sufficed. */
  lemma {:induction false} ExpandItemFuel(step: Step, sub: Subrequest, fuel: nat, more: nat)
    requires fuel <= more
    requires ExpandItem(step, sub, fuel) != Err(FuelExhausted)
    ensures ExpandItem(step, sub, more) == ExpandItem(step, sub, fuel)
    decreases fuel, 0
  {
    var expanded := step(sub);
    if expanded.Ok? && expanded.value.Some? {
      ExpandBatchFuel(step, expanded.value.value, fuel - 1, more - 1);
    }
  }

  lemma {:induction false} ExpandBatchFuel(step: Step, batch: seq<Subrequest>, fuel: nat, more: nat)
    requires fuel <= more
    requires ExpandBatch(step, batch, fuel) != Err(FuelExhausted)
    ensures ExpandBatch(step, batch, more) == ExpandBatch(step, batch, fuel)
    decreases fuel, 1, |batch|
  {
    if |batch| > 0 {
      var first := ExpandItem(step, batch[0], fuel);
      if first != Err(FuelExhausted) {
        ExpandItemFuel(step, batch[0], fuel, more);
        if first.Ok? {
          ExpandBatchFuel(step, batch[1..], fuel, more);
        }
      }
    }
  }

  /** The fuel only bounds the expansion: with more of it, a result that
      did not run out stays the same. */
  lemma ReplaceItemFuel(sub: Subrequest, pool: seq<Response>, codec: Codec, fuel: nat, more: nat)
    requires fuel <= more
    requires ReplaceItem(sub, pool, codec, fuel) != Err(FuelExhausted)
    ensures ReplaceItem(sub, pool, codec, more) == ReplaceItem(sub, pool, codec, fuel)
  {
    ExpandItemFuel(s => Expand(s, pool, codec), sub, fuel, more);
  }

  /** A subrequest whose URI and serialized body hold no token comes back
      unchanged but for being marked resolved. */
  lemma NoTokensResolved(sub: Subrequest, pool: seq<Response>, codec: Codec, fuel: nat)
    requires FindTokens(sub.uri) == []
    requires FindTokens(SubjectText(sub, Body, codec)) == []
    ensures ReplaceItem(sub, pool, codec, fuel) == Ok([sub.(resolved := true)])
  {
    NoTokensNoReplacements(sub, Uri, pool, codec);
    NoTokensNoReplacements(sub, Body, pool, codec);
  }

  /** A subrequest the replacer is done with: marked resolved, and neither
      its URI nor its serialized body holds a token. */
  predicate Done(o: Subrequest, codec: Codec) {
    o.resolved && FindTokens(o.uri) == [] && FindTokens(SubjectText(o, Body, codec)) == []
  }

  /** `o` descends from `base` under the id prefix `pre`: its id extends
      `pre`, and its dependency, action and headers are those of `base`. */
  predicate Descends(o: Subrequest, pre: string, base: Subrequest) {
    pre <= o.requestId && o.waitFor == base.waitFor && o.action == base.action && o.headers == base.headers
  }

  /** Every copy a step makes descends from the subrequest it expands. */
  ghost predicate CopiesDescend(step: Step) {
    forall s :: step(s).Ok? && step(s).value.Some? ==>
      forall k :: 0 <= k < |step(s).value.value| ==> Descends(step(s).value.value[k], s.requestId, s)
  }

  /** A step finds no tokens only in a subrequest that is then done. */
  ghost predicate StopsWhenDone(step: Step, codec: Codec) {
    forall s :: step(s) == Ok(None) ==> Done(s.(resolved := true), codec)
  }

  /** Every subrequest an item yields is done and descends from the item's origin. */
  lemma {:induction false} ExpandItemOutputs(step: Step, codec: Codec, sub: Subrequest, fuel: nat, pre: string, base: Subrequest)
    requires CopiesDescend(step) && StopsWhenDone(step, codec)
    requires Descends(sub, pre, base)
    requires ExpandItem(step, sub, fuel).Ok?
    ensures var out := ExpandItem(step, sub, fuel).value;
      forall k :: 0 <= k < |out| ==> Done(out[k], codec) && Descends(out[k], pre, base)
    decreases fuel, 0
  {
    var expanded := step(sub).value;
    if expanded.Some? {
      var copies := expanded.value;
      assert forall k :: 0 <= k < |copies| ==> Descends(copies[k], sub.requestId, sub);
      ExpandBatchOutputs(step, codec, copies, fuel - 1, pre, base);
    }
  }

  /** Every subrequest a batch yields is done and descends from the batch's common origin. */
  lemma {:induction false} ExpandBatchOutputs(step: Step, codec: Codec, batch: seq<Subrequest>, fuel: nat, pre: string, base: Subrequest)
    requires CopiesDescend(step) && StopsWhenDone(step, codec)
    requires forall k :: 0 <= k < |batch| ==> Descends(batch[k], pre, base)
    requires ExpandBatch(step, batch, fuel).Ok?
    ensures var out := ExpandBatch(step, batch, fuel).value;
      forall k :: 0 <= k < |out| ==> Done(out[k], codec) && Descends(out[k], pre, base)
    decreases fuel, 1, |batch|
  {
    if |batch| > 0 {
      ExpandItemOutputs(step, codec, batch[0], fuel, pre, base);
      assert forall k :: 0 <= k < |batch[1..]| ==> batch[1..][k] == batch[k + 1];
      ExpandBatchOutputs(step, codec, batch[1..], fuel, pre, base);
      var first := ExpandItem(step, batch[0], fuel).value;
      var rest := ExpandBatch(step, batch[1..], fuel).value;
      var out := ExpandBatch(step, batch, fuel).value;
      assert out == first + rest;
      forall k | 0 <= k < |out| ensures Done(out[k], codec) && Descends(out[k], pre, base) {
        if k >= |first| {
          assert out[k] == rest[k - |first|];
        }
      }
    }
  }

  /** The copies of an expansion get ids that extend the subrequest's and
      keep its dependency, action and headers. */
  lemma ExpandCopiesDescend(pool: seq<Response>, codec: Codec)
    ensures CopiesDescend(s => Expand(s, pool, codec))
  {
    forall s | Expand(s, pool, codec).Ok? && Expand(s, pool, codec).value.Some?
      ensures forall k :: 0 <= k < |Expand(s, pool, codec).value.value| ==>
        Descends(Expand(s, pool, codec).value.value[k], s.requestId, s)
    {
      var loc := ExpandCases(s, pool, codec);
      DoReplaceDescends(ExpandTable(s, loc, pool, codec), s, loc, codec);
    }
  }

  /** The table a step expands at `loc`. */
  function ExpandTable(sub: Subrequest, loc: Location, pool: seq<Response>, codec: Codec): Table
    requires ExtractTokenReplacements(sub, loc, pool, codec).Ok?
  {
    ExtractTokenReplacements(sub, loc, pool, codec).value
  }

  /** The cases of a step that succeeds: both tables were computed; there
      are no copies exactly when both are empty; otherwise the copies are
      those of the URI table when it is not empty, else of the body table. */
  lemma ExpandCases(sub: Subrequest, pool: seq<Response>, codec: Codec) returns (loc: Location)
    requires Expand(sub, pool, codec).Ok?
    ensures ExtractTokenReplacements(sub, Uri, pool, codec).Ok?
    ensures ExtractTokenReplacements(sub, Body, pool, codec).Ok?
    ensures Expand(sub, pool, codec).value.None? <==>
      |ExpandTable(sub, Uri, pool, codec)| == 0 && |ExpandTable(sub, Body, pool, codec)| == 0
    ensures loc == if |ExpandTable(sub, Uri, pool, codec)| != 0 then Uri else Body
    ensures Expand(sub, pool, codec).value.Some? ==>
      && DoReplace(ExpandTable(sub, loc, pool, codec), sub, loc, codec).Ok?
      && Expand(sub, pool, codec).value.value == DoReplace(ExpandTable(sub, loc, pool, codec), sub, loc, codec).value
  {
    loc := if |ExpandTable(sub, Uri, pool, codec)| != 0 then Uri else Body;
  }

  /** The copies made at `loc` have ids that extend `id#uri{` or `id#body{`
      and keep the subrequest's dependency, action and headers. */
  lemma DoReplaceDescends(tr: Table, sub: Subrequest, loc: Location, codec: Codec)
    requires DoReplace(tr, sub, loc, codec).Ok?
    ensures var cs := DoReplace(tr, sub, loc, codec).value;
      forall k :: 0 <= k < |cs| ==> Descends(cs[k], sub.requestId + "#" + LocationName(loc) + "{", sub)
  {
    var cs := DoReplace(tr, sub, loc, codec).value;
    var pre := sub.requestId + "#" + LocationName(loc) + "{";
    DoReplaceIds(tr, sub, loc, codec);
    forall k | 0 <= k < |cs| ensures Descends(cs[k], pre, sub) {
      assert cs[k].requestId == pre + (NatToString(k) + "}");
    }
  }

  /** A subrequest in which a step finds no replacements holds no token. */
  lemma ExpandStopsWhenDone(pool: seq<Response>, codec: Codec)
    ensures StopsWhenDone(s => Expand(s, pool, codec), codec)
  {
    forall s | Expand(s, pool, codec) == Ok(None) ensures Done(s.(resolved := true), codec) {
      var _ := ExpandCases(s, pool, codec);
      ExtractEmptyIffNoTokens(s, Uri, pool, codec);
      ExtractEmptyIffNoTokens(s, Body, pool, codec);
      assert SubjectText(s.(resolved := true), Body, codec) == SubjectText(s, Body, codec);
    }
  }

  /** Every subrequest `replaceItem` returns is resolved and holds no token,
      keeps the input's dependency, action and headers, and has an id that
      extends the input's. */
  lemma ReplaceItemResolves(sub: Subrequest, pool: seq<Response>, codec: Codec, fuel: nat)
    requires ReplaceItem(sub, pool, codec, fuel).Ok?
    ensures var out := ReplaceItem(sub, pool, codec, fuel).value;
      forall k :: 0 <= k < |out| ==> Done(out[k], codec) && Descends(out[k], sub.requestId, sub)
  {
    ExpandCopiesDescend(pool, codec);
    ExpandStopsWhenDone(pool, codec);
    ExpandItemOutputs(s => Expand(s, pool, codec), codec, sub, fuel, sub.requestId, sub);
  }

  /** A step expands the URI when it holds a token, and otherwise the body
      when that holds one: the copies' ids extend `id#uri{` or `id#body{`. */
  lemma ExpandUriFirst(sub: Subrequest, pool: seq<Response>, codec: Codec)
    requires Expand(sub, pool, codec).Ok?
    ensures Expand(sub, pool, codec).value.None? <==>
      FindTokens(sub.uri) == [] && FindTokens(SubjectText(sub, Body, codec)) == []
    ensures Expand(sub, pool, codec).value.Some? ==>
      var copies := Expand(sub, pool, codec).value.value;
      var loc := if FindTokens(sub.uri) != [] then Uri else Body;
      forall k :: 0 <= k < |copies| ==> Descends(copies[k], sub.requestId + "#" + LocationName(loc) + "{", sub)
  {
    var loc := ExpandCases(sub, pool, codec);
    ExtractEmptyIffNoTokens(sub, Uri, pool, codec);
    ExtractEmptyIffNoTokens(sub, Body, pool, codec);
    if Expand(sub, pool, codec).value.Some? {
      DoReplaceDescends(ExpandTable(sub, loc, pool, codec), sub, loc, codec);
    }
  }

  lemma LocationPrefix(id: string, loc: Location)
    ensures id + "#" + LocationName(loc) + "{" == id + (if loc.Uri? then "#uri{" else "#body{")
  {
    if loc.Uri? {
      assert "#" + "uri" + "{" == "#uri{";
    } else {
      assert "#" + "body" + "{" == "#body{";
    }
  }

  /** What an expansion into copies under the prefix `pre` yields has ids that extend `pre`. */
  lemma ExpansionKeepsPrefix(step: Step, codec: Codec, sub: Subrequest, fuel: nat, pre: string)
    requires CopiesDescend(step) && StopsWhenDone(step, codec)
    requires step(sub).Ok? && step(sub).value.Some?
    requires forall k :: 0 <= k < |step(sub).value.value| ==> Descends(step(sub).value.value[k], pre, sub)
    requires ExpandItem(step, sub, fuel).Ok?
    ensures var out := ExpandItem(step, sub, fuel).value;
      forall k :: 0 <= k < |out| ==> pre <= out[k].requestId
  {
    ExpandBatchOutputs(step, codec, step(sub).value.value, fuel - 1, pre, sub);
  }

  /** URI tokens are expanded before body tokens: when the URI holds a token
      every id returned extends `id#uri{`, and only when it holds none and
      the body does, `id#body{`. */
  lemma ReplaceItemUriFirst(sub: Subrequest, pool: seq<Response>, codec: Codec, fuel: nat)
    requires ReplaceItem(sub, pool, codec, fuel).Ok?
    ensures var out := ReplaceItem(sub, pool, codec, fuel).value;
      FindTokens(sub.uri) != [] ==> forall k :: 0 <= k < |out| ==> sub.requestId + "#uri{" <= out[k].requestId
    ensures var out := ReplaceItem(sub, pool, codec, fuel).value;
      FindTokens(sub.uri) == [] && FindTokens(SubjectText(sub, Body, codec)) != [] ==>
        forall k :: 0 <= k < |out| ==> sub.requestId + "#body{" <= out[k].requestId
  {
    assert Expand(sub, pool, codec).Ok?;
    ExpandUriFirst(sub, pool, codec);
    if Expand(sub, pool, codec).value.Some? {
      var loc := if FindTokens(sub.uri) != [] then Uri else Body;
      LocationPrefix(sub.requestId, loc);
      ReplaceItemUnder(sub, pool, codec, fuel, sub.requestId + "#" + LocationName(loc) + "{");
    }
  }

  /** When the first expansion makes copies under `pre`, everything
      `replaceItem` returns has an id that extends `pre`. */
  lemma ReplaceItemUnder(sub: Subrequest, pool: seq<Response>, codec: Codec, fuel: nat, pre: string)
    requires ReplaceItem(sub, pool, codec, fuel).Ok?
    requires Expand(sub, pool, codec).Ok? && Expand(sub, pool, codec).value.Some?
    requires forall k :: 0 <= k < |Expand(sub, pool, codec).value.value| ==>
      Descends(Expand(sub, pool, codec).value.value[k], pre, sub)
    ensures forall k :: 0 <= k < |ReplaceItem(sub, pool, codec, fuel).value| ==>
      pre <= ReplaceItem(sub, pool, codec, fuel).value[k].requestId
  {
    ExpandCopiesDescend(pool, codec);
    ExpandStopsWhenDone(pool, codec);
    ExpansionKeepsPrefix(s => Expand(s, pool, codec), codec, sub, fuel, pre);
  }
}
