/** The blueprint manager: it turns the blueprint text into subrequests with
    their defaults filled in, checks their shape, and layers them into the
    execution sequence, a list of levels whose items can run in parallel once
    the previous level has run. */
module BlueprintManager {
  import opened Wrappers
  import opened Json
  import opened Assoc
  import opened Types

  /** The parent id of the items that wait for nothing. */
  const Root := "<ROOT>"

  /** The members of a blueprint item that the manager reads or writes, as
      `undefined` (None) or a value. `headers` is the item's own JSON value
      until defaulting replaces a falsy one with an empty `Map`. */
  datatype ItemFields = ItemFields(
    requestId: Option<Json>,
    waitFor: Option<Json>,
    uri: Option<Json>,
    action: Option<Json>,
    body: Option<Json>,
    headers: Option<HeaderField>,
    resolved: Option<Json>)

  /** The item fields of a parsed blueprint entry. An array has none of the
      named properties; a primitive or `null` has no properties to assign,
      so None (assigning one throws a TypeError in strict mode). */
  function ReadItem(j: Json): Option<ItemFields> {
    match j
    case JObj(ms) =>
      Some(ItemFields(Get(ms, "requestId"), Get(ms, "waitFor"), Get(ms, "uri"), Get(ms, "action"),
        Get(ms, "body"), if Get(ms, "headers").Some? then Some(PlainObject(Get(ms, "headers").value)) else None,
        Get(ms, "_resolved")))
    case JArr(_) => Some(ItemFields(None, None, None, None, None, None, None))
    case _ => None
  }

  /** JavaScript truthiness of an optional member: `undefined` is falsy, a
      `Map` is truthy. */
  predicate Present(v: Option<Json>) {
    v.Some? && Truthy(v.value)
  }

  predicate HeadersPresent(h: Option<HeaderField>) {
    h.Some? && (h.value.MapHeaders? || Truthy(h.value.value))
  }

  /** `fillDefaults(rawItem)` on the item's fields, with `freshId` the id
      `uuid()` would generate. `JSON.parse` of the body throws when the body
      text is not JSON. */
  function Defaulted(raw: ItemFields, freshId: string, codec: Codec): (r: Result<ItemFields>)
    ensures r.Err? <==> raw.body.Some? && codec.parse(ToJsString(raw.body.value)).None?
    ensures r.Err? ==> r.error == InvalidJson(ToJsString(raw.body.value))
    ensures r.Ok? ==> r.value.requestId.Some? && r.value.waitFor.Some? && r.value.headers.Some?
    ensures r.Ok? ==> r.value.resolved == Some(JBool(false))
    ensures r.Ok? ==> r.value.uri == raw.uri && r.value.action == raw.action
    ensures r.Ok? ==> (r.value.requestId == raw.requestId <==> Present(raw.requestId) || raw.requestId == Some(JStr(freshId)))
    ensures r.Ok? && !Present(raw.requestId) ==> r.value.requestId == Some(JStr(freshId))
    ensures r.Ok? && !Present(raw.waitFor) ==> r.value.waitFor == Some(JStr(Root))
    ensures r.Ok? && Present(raw.waitFor) ==> r.value.waitFor == raw.waitFor
    ensures r.Ok? && !HeadersPresent(raw.headers) ==> r.value.headers == Some(MapHeaders([]))
    ensures r.Ok? && HeadersPresent(raw.headers) ==> r.value.headers == raw.headers
    ensures r.Ok? ==> (r.value.body.Some? <==> raw.body.Some?)
    ensures r.Ok? && raw.body.Some? ==> Some(r.value.body.value) == codec.parse(ToJsString(raw.body.value))
  {
    var requestId := if Present(raw.requestId) then raw.requestId else Some(JStr(freshId));
    var body :- if raw.body.None? then Ok(None)
      else match codec.parse(ToJsString(raw.body.value))
        case None => Err(InvalidJson(ToJsString(raw.body.value)))
        case Some(b) => Ok(Some(b));
    var headers := if HeadersPresent(raw.headers) then raw.headers else Some(MapHeaders([]));
    var waitFor := if Present(raw.waitFor) then raw.waitFor else Some(JStr(Root));
    Ok(ItemFields(requestId, waitFor, raw.uri, raw.action, body, headers, Some(JBool(false))))
  }

  /** A blueprint item as the object that `fillDefaults` updates in place. */
  class BlueprintItem {
    var requestId: Option<Json>
    var waitFor: Option<Json>
    var uri: Option<Json>
    var action: Option<Json>
    var body: Option<Json>
    var headers: Option<HeaderField>
    var resolved: Option<Json>

    constructor (f: ItemFields)
      ensures Value() == f
    {
      requestId, waitFor, uri, action := f.requestId, f.waitFor, f.uri, f.action;
      body, headers, resolved := f.body, f.headers, f.resolved;
    }

    function Value(): ItemFields
      reads this
    {
      ItemFields(requestId, waitFor, uri, action, body, headers, resolved)
    }

    /** `fillDefaults(this)`: the fields are overwritten one after the other;
        when the body does not parse, the exception leaves the item with
        only its `requestId` filled in. */
    method FillDefaults(freshId: string, codec: Codec) returns (ok: bool)
      modifies this
      ensures ok <==> Defaulted(old(Value()), freshId, codec).Ok?
      ensures ok ==> Value() == Defaulted(old(Value()), freshId, codec).value
      ensures !ok ==> Value() == old(Value()).(requestId := Defaulted(old(Value()).(body := None), freshId, codec).value.requestId)
    {
      if !Present(requestId) {
        requestId := Some(JStr(freshId));
      }
      if body.Some? {
        var parsed := codec.parse(ToJsString(body.value));
        if parsed.None? {
          return false;
        }
        body := parsed;
      }
      if !HeadersPresent(headers) {
        headers := Some(MapHeaders([]));
      }
      if !Present(waitFor) {
        waitFor := Some(JStr(Root));
      }
      resolved := Some(JBool(false));
      return true;
    }
  }

  /** The members `isValidItem` requires to be defined, in its order. */
  const RequiredKeys := ["requestId", "waitFor", "uri", "action", "headers"]

  /** The actions a subrequest may name. */
  const Actions := ["view", "create", "update", "replace", "delete", "exists", "discover"]

  /** `typeof item[key] !== 'undefined'`. */
  predicate Defined(item: ItemFields, key: string) {
    match key
    case "requestId" => item.requestId.Some?
    case "waitFor" => item.waitFor.Some?
    case "uri" => item.uri.Some?
    case "action" => item.action.Some?
    case "headers" => item.headers.Some?
    case "body" => item.body.Some?
    case _ => false
  }

  predicate IsString(v: Option<Json>) {
    v.Some? && v.value.JStr?
  }

  /** `typeof item.headers === 'object'`: a `Map`, or a JSON array, object or `null`. */
  predicate HeadersAreObject(h: Option<HeaderField>) {
    h.Some? && (h.value.MapHeaders? || TypeOf(h.value.value) == "object")
  }

  /** The type tests of `isValidItem`, which it repeats for every key. */
  predicate TypesOk(item: ItemFields) {
    && IsString(item.requestId)
    && IsString(item.waitFor)
    && IsString(item.uri)
    && HeadersAreObject(item.headers)
    && (item.body.None? || TypeOf(item.body.value) == "object")
    && IsString(item.action) && item.action.value.s in Actions
  }

  /** The `reduce` of `isValidItem` over `keys`, starting from `all`. */
  function CheckKeys(item: ItemFields, keys: seq<string>, all: bool): bool {
    if |keys| == 0 then all
    else CheckKeys(item, keys[1..], all && Defined(item, keys[0]) && TypesOk(item))
  }

  /** `isValidItem(item)`. */
  function IsValidItem(item: ItemFields): bool {
    CheckKeys(item, RequiredKeys, true)
  }

  /** `isValidTree(parsed)`: the `reduce` over the items, starting from `valid`. */
  function ValidFrom(items: seq<ItemFields>, valid: bool): bool {
    if |items| == 0 then valid else ValidFrom(items[1..], valid && IsValidItem(items[0]))
  }

  function IsValidTree(items: seq<ItemFields>): bool {
    ValidFrom(items, true)
  }

  lemma {:induction false} CheckKeysIff(item: ItemFields, keys: seq<string>, all: bool)
    ensures CheckKeys(item, keys, all) <==>
      all && (|keys| == 0 || TypesOk(item)) && forall i :: 0 <= i < |keys| ==> Defined(item, keys[i])
  {
    if |keys| > 0 {
      CheckKeysIff(item, keys[1..], all && Defined(item, keys[0]) && TypesOk(item));
      assert forall i :: 0 < i < |keys| ==> keys[i] == keys[1..][i - 1];
    }
  }

  /** An item is valid exactly when the five required members are defined,
      `requestId`, `waitFor` and `uri` are strings, `headers` is an object,
      `body` is absent or an object and `action` is one of the seven actions. */
  lemma IsValidItemIff(item: ItemFields)
    ensures IsValidItem(item) <==>
      && item.requestId.Some? && item.waitFor.Some? && item.uri.Some? && item.action.Some? && item.headers.Some?
      && item.requestId.value.JStr? && item.waitFor.value.JStr? && item.uri.value.JStr?
      && (item.headers.value.MapHeaders? || TypeOf(item.headers.value.value) == "object")
      && (item.body.None? || TypeOf(item.body.value) == "object")
      && item.action.value.JStr? && item.action.value.s in Actions
  {
    CheckKeysIff(item, RequiredKeys, true);
    assert (Defined(item, RequiredKeys[0]) && Defined(item, RequiredKeys[1]) && Defined(item, RequiredKeys[2])
      && Defined(item, RequiredKeys[3]) && Defined(item, RequiredKeys[4])) <==>
      (forall i :: 0 <= i < |RequiredKeys| ==> Defined(item, RequiredKeys[i]));
  }

  lemma {:induction false} ValidFromIff(items: seq<ItemFields>, valid: bool)
    ensures ValidFrom(items, valid) <==> valid && forall i :: 0 <= i < |items| ==> IsValidItem(items[i])
  {
    if |items| > 0 {
      ValidFromIff(items[1..], valid && IsValidItem(items[0]));
      assert forall i :: 0 < i < |items| ==> items[i] == items[1..][i - 1];
    }
  }

  /** A tree is valid exactly when each of its items is; the empty list is valid. */
  lemma IsValidTreeIff(items: seq<ItemFields>)
    ensures IsValidTree(items) <==> forall i :: 0 <= i < |items| ==> IsValidItem(items[i])
    ensures IsValidTree([])
  {
    ValidFromIff(items, true);
  }

  /** A valid item as a subrequest. */
  function Typed(item: ItemFields): (s: Subrequest)
    requires IsValidItem(item)
    ensures Some(JStr(s.requestId)) == item.requestId && Some(JStr(s.waitFor)) == item.waitFor
    ensures Some(JStr(s.uri)) == item.uri && Some(JStr(s.action)) == item.action
    ensures s.body == item.body && Some(s.headers) == item.headers
    ensures s.action in Actions
  {
    IsValidItemIff(item);
    Subrequest(item.requestId.value.s, item.waitFor.value.s, item.uri.value.s, item.action.value.s,
      item.body, item.headers.value, item.resolved == Some(JBool(true)))
  }

  /** The tests the layering filters with. */
  datatype Test = IsRoot | WaitsOn(ids: seq<string>)

  predicate Holds(t: Test, x: Subrequest) {
    match t
    case IsRoot => x.waitFor == Root
    case WaitsOn(ids) => x.waitFor in ids
  }

  /** `s.filter(x => test(x) === keep)`. */
  function Filter(s: seq<Subrequest>, t: Test, keep: bool): (r: seq<Subrequest>)
    ensures |r| <= |s|
  {
    if |s| == 0 then []
    else (if Holds(t, s[0]) == keep then [s[0]] else []) + Filter(s[1..], t, keep)
  }

  /** A filter keeps exactly the entries that pass its test. */
  lemma {:induction false} FilterMembers(s: seq<Subrequest>, t: Test, keep: bool)
    ensures forall x :: x in Filter(s, t, keep) <==> x in s && Holds(t, x) == keep
  {
    if |s| > 0 {
      FilterMembers(s[1..], t, keep);
      assert s == [s[0]] + s[1..];
    }
  }

  /** What is kept and what is dropped make up the whole list. */
  lemma {:induction false} FilterSplit(s: seq<Subrequest>, t: Test)
    ensures |Filter(s, t, true)| + |Filter(s, t, false)| == |s|
    ensures multiset(Filter(s, t, true)) + multiset(Filter(s, t, false)) == multiset(s)
  {
    if |s| > 0 {
      FilterSplit(s[1..], t);
      assert s == [s[0]] + s[1..];
    }
  }

  /** The request ids of a level. */
  function Ids(level: seq<Subrequest>): (ids: seq<string>)
    ensures |ids| == |level|
    ensures forall i :: 0 <= i < |level| ==> ids[i] == level[i].requestId
  {
    seq(|level|, i requires 0 <= i < |level| => level[i].requestId)
  }

  /** `level.some(({ requestId }) => requestId === waitFor)`. */
  lemma IdsMember(level: seq<Subrequest>, w: string)
    ensures w in Ids(level) <==> exists r :: r in level && r.requestId == w
  {
    if w in Ids(level) {
      var i :| 0 <= i < |level| && Ids(level)[i] == w;
      assert level[i] in level;
    }
  }

  /** `_.difference(a, b)`: the entries of `a` that are not in `b`. */
  function Difference(a: seq<Subrequest>, b: seq<Subrequest>): seq<Subrequest> {
    if |a| == 0 then [] else (if a[0] in b then [] else [a[0]]) + Difference(a[1..], b)
  }

  /** Taking away the items a filter keeps leaves the items it drops. */
  lemma {:induction false} DifferenceOfFilter(s: seq<Subrequest>, sub: seq<Subrequest>, t: Test)
    requires forall x :: x in s ==> (x in sub <==> Holds(t, x))
    ensures Difference(s, sub) == Filter(s, t, false)
  {
    if |s| > 0 {
      assert s[0] in s;
      forall x | x in s[1..] ensures x in sub <==> Holds(t, x) {
        assert x in s;
      }
      DifferenceOfFilter(s[1..], sub, t);
    }
  }

  /** The levels that the `while` loop pushes after `last`, with `pending`
      still to place; None when the loop never ends: once an iteration places
      nothing, every later one looks for parents in an empty level. */
  function Iterate(last: seq<Subrequest>, pending: seq<Subrequest>): Option<seq<seq<Subrequest>>>
    decreases |pending|
  {
    if |pending| == 0 then Some([])
    else
      var t := WaitsOn(Ids(last));
      var placed := Filter(pending, t, true);
      if |placed| == 0 then None
      else
        FilterSplit(pending, t);
        match Iterate(placed, Filter(pending, t, false))
        case None => None
        case Some(ls) => Some([placed] + ls)
  }

  /** One level of Iterate: a non-empty batch of placed items, and the rest. */
  lemma IterateStep(last: seq<Subrequest>, pending: seq<Subrequest>)
    requires |pending| > 0 && Iterate(last, pending).Some?
    ensures var t := WaitsOn(Ids(last));
      && |Filter(pending, t, true)| > 0
      && |Filter(pending, t, false)| < |pending|
      && Iterate(Filter(pending, t, true), Filter(pending, t, false)).Some?
      && Iterate(last, pending).value == [Filter(pending, t, true)] + Iterate(Filter(pending, t, true), Filter(pending, t, false)).value
  {
    FilterSplit(pending, WaitsOn(Ids(last)));
  }

  /** `buildExecutionSequence(parsed)`, None when it does not return. */
  function ExecutionSequence(parsed: seq<Subrequest>): Option<seq<seq<Subrequest>>> {
    var roots := Filter(parsed, IsRoot, true);
    match Iterate(roots, Filter(parsed, IsRoot, false))
    case None => None
    case Some(ls) => Some([roots] + ls)
  }

  predicate Terminates(parsed: seq<Subrequest>) {
    ExecutionSequence(parsed).Some?
  }

  /** All the levels, one after the other. */
  function Flatten<T>(levels: seq<seq<T>>): seq<T> {
    if |levels| == 0 then [] else levels[0] + Flatten(levels[1..])
  }

  lemma {:induction false} FlattenMember<T>(ls: seq<seq<T>>, k: nat, x: T)
    requires k < |ls| && x in ls[k]
    ensures x in multiset(Flatten(ls))
  {
    if k > 0 {
      FlattenMember(ls[1..], k - 1, x);
    }
  }

  /** `a` is `b` with some entries left out, in `b`'s order. */
  predicate Sub(a: seq<Subrequest>, b: seq<Subrequest>)
    decreases |b|
  {
    if |b| == 0 then |a| == 0
    else (|a| > 0 && a[0] == b[0] && Sub(a[1..], b[1..])) || Sub(a, b[1..])
  }

  lemma {:induction false} SubOfEmpty(b: seq<Subrequest>)
    ensures Sub([], b)
    decreases |b|
  {
    if |b| > 0 {
      SubOfEmpty(b[1..]);
    }
  }

  lemma {:induction false} FilterSub(s: seq<Subrequest>, t: Test, keep: bool)
    ensures Sub(Filter(s, t, keep), s)
  {
    if |s| > 0 {
      FilterSub(s[1..], t, keep);
      var r := Filter(s, t, keep);
      if Holds(t, s[0]) == keep {
        assert r == [s[0]] + Filter(s[1..], t, keep);
        assert r[1..] == Filter(s[1..], t, keep);
      } else {
        assert r == Filter(s[1..], t, keep);
      }
    }
  }

  lemma {:induction false} SubTrans(a: seq<Subrequest>, b: seq<Subrequest>, c: seq<Subrequest>)
    requires Sub(a, b) && Sub(b, c)
    ensures Sub(a, c)
    decreases |c|
  {
    if |c| == 0 {
    } else if |b| > 0 && b[0] == c[0] && Sub(b[1..], c[1..]) {
      if |a| > 0 && a[0] == b[0] && Sub(a[1..], b[1..]) {
        SubTrans(a[1..], b[1..], c[1..]);
      } else if |a| == 0 {
        SubOfEmpty(c);
      } else {
        SubTrans(a, b[1..], c[1..]);
      }
    } else {
      SubTrans(a, b, c[1..]);
    }
  }

  /** Every level the loop pushes is non-empty and there are no more levels
      than pending items. */
  lemma {:induction false} IterateNonEmpty(last: seq<Subrequest>, pending: seq<Subrequest>)
    requires Iterate(last, pending).Some?
    ensures |Iterate(last, pending).value| <= |pending|
    ensures forall k :: 0 <= k < |Iterate(last, pending).value| ==> |Iterate(last, pending).value[k]| > 0
    decreases |pending|
  {
    if |pending| > 0 {
      var t := WaitsOn(Ids(last));
      IterateStep(last, pending);
      IterateNonEmpty(Filter(pending, t, true), Filter(pending, t, false));
      var ls := Iterate(last, pending).value;
      assert forall k :: 0 < k < |ls| ==> ls[k] == Iterate(Filter(pending, t, true), Filter(pending, t, false)).value[k - 1];
    }
  }

  /** Each item of the `k`-th level the loop pushes waits for an item of the
      level before (`last` for the first one). */
  lemma {:induction false} IterateLayerAt(last: seq<Subrequest>, pending: seq<Subrequest>, k: nat, x: Subrequest)
    requires Iterate(last, pending).Some? && k < |Iterate(last, pending).value|
    requires x in Iterate(last, pending).value[k]
    ensures x.waitFor in Ids(if k == 0 then last else Iterate(last, pending).value[k - 1])
    decreases |pending|
  {
    var t := WaitsOn(Ids(last));
    IterateStep(last, pending);
    var placed := Filter(pending, t, true);
    var tail := Iterate(placed, Filter(pending, t, false)).value;
    if k == 0 {
      FilterMembers(pending, t, true);
    } else {
      assert Iterate(last, pending).value[k] == tail[k - 1];
      IterateLayerAt(placed, Filter(pending, t, false), k - 1, x);
      if k > 1 {
        assert Iterate(last, pending).value[k - 1] == tail[k - 2];
      }
    }
  }

  /** The levels the loop pushes hold every pending item exactly once. */
  lemma {:induction false} IteratePartition(last: seq<Subrequest>, pending: seq<Subrequest>)
    requires Iterate(last, pending).Some?
    ensures multiset(Flatten(Iterate(last, pending).value)) == multiset(pending)
    decreases |pending|
  {
    if |pending| > 0 {
      var t := WaitsOn(Ids(last));
      IterateStep(last, pending);
      FilterSplit(pending, t);
      IteratePartition(Filter(pending, t, true), Filter(pending, t, false));
      var ls := Iterate(last, pending).value;
      assert ls[1..] == Iterate(Filter(pending, t, true), Filter(pending, t, false)).value;
    }
  }

  /** Each level the loop pushes keeps the order of `pending`. */
  lemma {:induction false} IterateOrder(last: seq<Subrequest>, pending: seq<Subrequest>, k: nat)
    requires Iterate(last, pending).Some? && k < |Iterate(last, pending).value|
    ensures Sub(Iterate(last, pending).value[k], pending)
    decreases |pending|
  {
    var t := WaitsOn(Ids(last));
    IterateStep(last, pending);
    var rest := Filter(pending, t, false);
    if k == 0 {
      FilterSub(pending, t, true);
    } else {
      var tail := Iterate(Filter(pending, t, true), rest).value;
      assert Iterate(last, pending).value[k] == tail[k - 1];
      IterateOrder(Filter(pending, t, true), rest, k - 1);
      FilterSub(pending, t, false);
      SubTrans(tail[k - 1], rest, pending);
    }
  }

  /** Level 0 is exactly the items that wait for the root, in input order;
      there is always at least one level. */
  lemma ExecutionSequenceRoots(parsed: seq<Subrequest>)
    requires Terminates(parsed)
    ensures var levels := ExecutionSequence(parsed).value;
      && |levels| >= 1
      && (forall x :: x in levels[0] <==> x in parsed && x.waitFor == Root)
      && Sub(levels[0], parsed)
  {
    FilterSub(parsed, IsRoot, true);
    FilterMembers(parsed, IsRoot, true);
  }

  /** An item of level `k > 0` does not wait for the root and waits for the
      request id of an item of level `k - 1`. */
  lemma ExecutionSequenceLayerAt(parsed: seq<Subrequest>, k: nat, x: Subrequest)
    requires Terminates(parsed) && 0 < k < |ExecutionSequence(parsed).value|
    requires x in ExecutionSequence(parsed).value[k]
    ensures x.waitFor != Root
    ensures exists r :: r in ExecutionSequence(parsed).value[k - 1] && r.requestId == x.waitFor
  {
    var roots := Filter(parsed, IsRoot, true);
    var pending := Filter(parsed, IsRoot, false);
    LaterLevels(parsed, k);
    IterateLayerAt(roots, pending, k - 1, x);
    IdsMember(ExecutionSequence(parsed).value[k - 1], x.waitFor);
    PlacedFromPending(roots, pending, k - 1, x);
    FilterMembers(parsed, IsRoot, false);
  }

  /** Level `k > 0` of the sequence is level `k - 1` of the iteration over
      the items that do not wait for the root, and the level before it is
      the roots or the iteration's previous level. */
  lemma LaterLevels(parsed: seq<Subrequest>, k: nat)
    requires Terminates(parsed) && 0 < k < |ExecutionSequence(parsed).value|
    ensures var roots, pending := Filter(parsed, IsRoot, true), Filter(parsed, IsRoot, false);
      && Iterate(roots, pending).Some?
      && k - 1 < |Iterate(roots, pending).value|
      && ExecutionSequence(parsed).value[k] == Iterate(roots, pending).value[k - 1]
      && ExecutionSequence(parsed).value[k - 1] == if k - 1 == 0 then roots else Iterate(roots, pending).value[k - 2]
  {
  }

  /** Whatever the iteration places was pending. */
  lemma PlacedFromPending(last: seq<Subrequest>, pending: seq<Subrequest>, j: nat, x: Subrequest)
    requires Iterate(last, pending).Some? && j < |Iterate(last, pending).value|
    requires x in Iterate(last, pending).value[j]
    ensures x in pending
  {
    FlattenMember(Iterate(last, pending).value, j, x);
    IteratePartition(last, pending);
    assert x in multiset(pending);
  }

  /** Every item of level `k + 1` waits for the request id of an item of
      level `k`, only level 0 holds items that wait for the root, and no
      level after the first is empty. */
  lemma ExecutionSequenceLayers(parsed: seq<Subrequest>)
    requires Terminates(parsed)
    ensures var levels := ExecutionSequence(parsed).value;
      && (forall k: nat, x: Subrequest :: 0 < k < |levels| && x in levels[k] ==>
            x.waitFor != Root && exists r: Subrequest :: r in levels[k - 1] && r.requestId == x.waitFor)
      && (forall k :: 0 < k < |levels| ==> |levels[k]| > 0)
  {
    var levels := ExecutionSequence(parsed).value;
    var ls := Iterate(Filter(parsed, IsRoot, true), Filter(parsed, IsRoot, false)).value;
    forall k: nat, x: Subrequest | 0 < k < |levels| && x in levels[k]
      ensures x.waitFor != Root && exists r: Subrequest :: r in levels[k - 1] && r.requestId == x.waitFor
    {
      ExecutionSequenceLayerAt(parsed, k, x);
    }
    IterateNonEmpty(Filter(parsed, IsRoot, true), Filter(parsed, IsRoot, false));
    assert forall k :: 0 < k < |levels| ==> levels[k] == ls[k - 1];
  }

  /** The levels partition the input: every item lands in exactly one level
      (as often as it occurs), each level keeping the input order. */
  lemma ExecutionSequencePartition(parsed: seq<Subrequest>)
    requires Terminates(parsed)
    ensures var levels := ExecutionSequence(parsed).value;
      && multiset(Flatten(levels)) == multiset(parsed)
      && forall k :: 0 <= k < |levels| ==> Sub(levels[k], parsed)
  {
    var roots := Filter(parsed, IsRoot, true);
    var pending := Filter(parsed, IsRoot, false);
    var levels := ExecutionSequence(parsed).value;
    var ls := Iterate(roots, pending).value;
    IteratePartition(roots, pending);
    FilterSplit(parsed, IsRoot);
    FilterSub(parsed, IsRoot, true);
    FilterSub(parsed, IsRoot, false);
    assert levels[1..] == ls;
    forall k | 0 < k < |levels| ensures Sub(levels[k], parsed) {
      assert levels[k] == ls[k - 1];
      IterateOrder(roots, pending, k - 1);
      SubTrans(levels[k], pending, parsed);
    }
  }

  /** `it` waits for the root, or for the request id of an item of `parsed`
      that does so within `n - 1` more steps. */
  predicate ReachesRootWithin(parsed: seq<Subrequest>, it: Subrequest, n: nat)
    decreases n
  {
    it.waitFor == Root
    || (n > 0 && exists p :: p in parsed && p.requestId == it.waitFor && ReachesRootWithin(parsed, p, n - 1))
  }

  /** Following `waitFor` through the declared request ids ends at the root. */
  ghost predicate ReachesRoot(parsed: seq<Subrequest>, it: Subrequest) {
    exists n: nat :: ReachesRootWithin(parsed, it, n)
  }

  lemma {:induction false} ReachesRootLonger(parsed: seq<Subrequest>, it: Subrequest, n: nat, m: nat)
    requires n <= m && ReachesRootWithin(parsed, it, n)
    ensures ReachesRootWithin(parsed, it, m)
    decreases n
  {
    if it.waitFor != Root {
      var p :| p in parsed && p.requestId == it.waitFor && ReachesRootWithin(parsed, p, n - 1);
      ReachesRootLonger(parsed, p, n - 1, m - 1);
    }
  }

  /** The items of level `k` reach the root in `k` steps. */
  lemma {:induction false} LevelReaches(parsed: seq<Subrequest>, k: nat, x: Subrequest)
    requires Terminates(parsed) && k < |ExecutionSequence(parsed).value|
    requires x in ExecutionSequence(parsed).value[k]
    ensures ReachesRootWithin(parsed, x, k)
  {
    var levels := ExecutionSequence(parsed).value;
    if k == 0 {
      ExecutionSequenceRoots(parsed);
    } else {
      ExecutionSequenceLayerAt(parsed, k, x);
      var r: Subrequest :| r in levels[k - 1] && r.requestId == x.waitFor;
      LevelReaches(parsed, k - 1, r);
      FlattenMember(levels, k - 1, r);
      ExecutionSequencePartition(parsed);
      assert r in multiset(parsed);
    }
  }

  lemma {:induction false} FlattenFind<T>(ls: seq<seq<T>>, x: T) returns (k: nat)
    requires x in Flatten(ls)
    ensures k < |ls| && x in ls[k]
  {
    if x in ls[0] {
      k := 0;
    } else {
      var k' := FlattenFind(ls[1..], x);
      k := k' + 1;
    }
  }

  /** When `buildExecutionSequence` returns, every item reaches the root
      within as many steps as there are items. */
  lemma TerminatesReaches(parsed: seq<Subrequest>)
    requires Terminates(parsed)
    ensures forall it :: it in parsed ==> ReachesRootWithin(parsed, it, |parsed|)
  {
    var levels := ExecutionSequence(parsed).value;
    ExecutionSequencePartition(parsed);
    IterateNonEmpty(Filter(parsed, IsRoot, true), Filter(parsed, IsRoot, false));
    forall it | it in parsed ensures ReachesRootWithin(parsed, it, |parsed|) {
      assert it in multiset(Flatten(levels));
      var k := FlattenFind(levels, it);
      LevelReaches(parsed, k, it);
      ReachesRootLonger(parsed, it, k, |parsed|);
    }
  }

  /** The state at a call of Iterate: `done` holds what is placed, `last`
      the newest level; every item is placed or pending, the pending ones do
      not wait for the root, and none waits for an item placed before `last`. */
  predicate IterateState(parsed: seq<Subrequest>, done: seq<Subrequest>, last: seq<Subrequest>, pending: seq<Subrequest>) {
    && (forall x :: x in parsed ==> x in done || x in pending)
    && (forall x :: x in pending ==> x in parsed && x.waitFor != Root)
    && (forall x, r :: x in pending && r in done && r.requestId == x.waitFor ==> x.waitFor in Ids(last))
  }

  /** A pending item that reaches the root leads to a pending item that can
      be placed now. */
  lemma {:induction false} SomeoneReady(parsed: seq<Subrequest>, done: seq<Subrequest>, last: seq<Subrequest>,
                                        pending: seq<Subrequest>, x: Subrequest, n: nat)
    returns (y: Subrequest)
    requires IterateState(parsed, done, last, pending)
    requires x in pending && ReachesRootWithin(parsed, x, n)
    ensures y in pending && y.waitFor in Ids(last)
    decreases n
  {
    if x.waitFor in Ids(last) {
      y := x;
    } else {
      var p :| p in parsed && p.requestId == x.waitFor && ReachesRootWithin(parsed, p, n - 1);
      assert p !in done;
      y := SomeoneReady(parsed, done, last, pending, p, n - 1);
    }
  }

  /** When every item reaches the root, the iteration places something at
      every step and so returns. */
  lemma {:induction false} IterateTerminates(parsed: seq<Subrequest>, done: seq<Subrequest>, last: seq<Subrequest>,
                                             pending: seq<Subrequest>)
    requires IterateState(parsed, done, last, pending)
    requires forall it :: it in parsed ==> ReachesRoot(parsed, it)
    ensures Iterate(last, pending).Some?
    decreases |pending|
  {
    if |pending| > 0 {
      var t := WaitsOn(Ids(last));
      var placed, rest := Filter(pending, t, true), Filter(pending, t, false);
      var x := pending[0];
      var n :| ReachesRootWithin(parsed, x, n);
      var y := SomeoneReady(parsed, done, last, pending, x, n);
      FilterMembers(pending, t, true);
      FilterMembers(pending, t, false);
      FilterSplit(pending, t);
      assert y in placed;
      forall x, r | x in rest && r in done + placed && r.requestId == x.waitFor
        ensures x.waitFor in Ids(placed)
      {
        assert r !in done;
        IdsMember(placed, x.waitFor);
      }
      IterateTerminates(parsed, done + placed, placed, rest);
    }
  }

  /** `buildExecutionSequence` returns exactly when every item's `waitFor`
      chain through the declared request ids ends at the root. */
  lemma TerminatesIffReachesRoot(parsed: seq<Subrequest>)
    ensures Terminates(parsed) <==> forall it :: it in parsed ==> ReachesRoot(parsed, it)
  {
    if Terminates(parsed) {
      TerminatesReaches(parsed);
    } else if forall it :: it in parsed ==> ReachesRoot(parsed, it) {
      var roots, pending := Filter(parsed, IsRoot, true), Filter(parsed, IsRoot, false);
      FilterMembers(parsed, IsRoot, true);
      FilterMembers(parsed, IsRoot, false);
      forall x, r | x in pending && r in roots && r.requestId == x.waitFor ensures x.waitFor in Ids(roots) {
        IdsMember(roots, x.waitFor);
      }
      IterateTerminates(parsed, roots, roots, pending);
    }
  }

  /** The state of the `while` loop: the levels pushed so far and the items
      not yet placed; the loop looks for parents in the last level. */
  datatype LoopState = LoopState(sequence: seq<seq<Subrequest>>, pending: seq<Subrequest>)

  function LastLevel(st: LoopState): seq<Subrequest>
    requires |st.sequence| > 0
  {
    st.sequence[|st.sequence| - 1]
  }

  /** One pass of the loop body (none once nothing is pending). */
  function LoopStep(st: LoopState): (r: LoopState)
    requires |st.sequence| > 0
    ensures |r.sequence| > 0
  {
    if |st.pending| == 0 then st
    else
      var t := WaitsOn(Ids(LastLevel(st)));
      LoopState(st.sequence + [Filter(st.pending, t, true)], Filter(st.pending, t, false))
  }

  /** The state after `n` passes. */
  function Run(st: LoopState, n: nat): (r: LoopState)
    requires |st.sequence| > 0
    ensures |r.sequence| > 0
    decreases n
  {
    if n == 0 then st else Run(LoopStep(st), n - 1)
  }

  /** Items remain but no item waits for the last level. */
  predicate Stalled(st: LoopState)
    requires |st.sequence| > 0
  {
    |st.pending| > 0 && |Filter(st.pending, WaitsOn(Ids(LastLevel(st))), true)| == 0
  }

  /** After a stalled pass the last level is empty and nothing moved. */
  lemma StalledStep(st: LoopState)
    requires |st.sequence| > 0 && Stalled(st)
    ensures LoopStep(st) == LoopState(st.sequence + [[]], st.pending)
    ensures Stalled(LoopStep(st))
  {
    var t := WaitsOn(Ids(LastLevel(st)));
    FilterAll(st.pending, t);
    var next := LoopStep(st);
    assert LastLevel(next) == [];
    assert Ids([]) == [];
    FilterNone(st.pending);
  }

  /** Once an iteration places nothing while items remain, every later
      iteration pushes an empty level and places nothing: the loop never
      ends, and no error is raised. */
  lemma {:induction false} StallPersists(st: LoopState, n: nat)
    requires |st.sequence| > 0 && Stalled(st)
    ensures Run(st, n).sequence == st.sequence + EmptyLevels(n)
    ensures Run(st, n).pending == st.pending
    ensures Stalled(Run(st, n))
    decreases n
  {
    if n > 0 {
      StalledStep(st);
      StallPersists(LoopStep(st), n - 1);
      EmptyLevelsCons(st.sequence, n);
    }
  }

  /** One more empty level in front of `n - 1` of them makes `n`. */
  lemma EmptyLevelsCons(a: seq<seq<Subrequest>>, n: nat)
    requires n > 0
    ensures a + [[]] + EmptyLevels(n - 1) == a + EmptyLevels(n)
  {
    assert [[]] + EmptyLevels(n - 1) == EmptyLevels(n);
  }

  function EmptyLevels(n: nat): (r: seq<seq<Subrequest>>)
    ensures |r| == n && forall k :: 0 <= k < n ==> r[k] == []
  {
    seq(n, _ => [])
  }

  lemma {:induction false} FilterNone(s: seq<Subrequest>)
    ensures Filter(s, WaitsOn([]), true) == []
  {
    if |s| > 0 {
      FilterNone(s[1..]);
    }
  }

  /** A filter that keeps nothing drops everything. */
  lemma {:induction false} FilterAll(s: seq<Subrequest>, t: Test)
    requires |Filter(s, t, true)| == 0
    ensures Filter(s, t, false) == s
  {
    if |s| > 0 {
      FilterAll(s[1..], t);
      assert s == [s[0]] + s[1..];
    }
  }

  /** When Iterate gives levels, the loop pushes exactly those and then stops. */
  lemma {:induction false} IterateRun(st: LoopState)
    requires |st.sequence| > 0
    requires Iterate(LastLevel(st), st.pending).Some?
    ensures Run(st, |Iterate(LastLevel(st), st.pending).value|) == LoopState(st.sequence + Iterate(LastLevel(st), st.pending).value, [])
    decreases |st.pending|
  {
    if |st.pending| > 0 {
      var t := WaitsOn(Ids(LastLevel(st)));
      IterateStep(LastLevel(st), st.pending);
      var placed := Filter(st.pending, t, true);
      var next := LoopStep(st);
      assert next == LoopState(st.sequence + [placed], Filter(st.pending, t, false));
      assert LastLevel(next) == placed;
      IterateRun(next);
      var tail := Iterate(placed, next.pending).value;
      assert st.sequence + [placed] + tail == st.sequence + ([placed] + tail);
    }
  }

  /** When Iterate gives None, the loop reaches a stalled state within as
      many iterations as there are pending items. */
  lemma {:induction false} IterateNoneStalls(st: LoopState)
    requires |st.sequence| > 0
    requires Iterate(LastLevel(st), st.pending).None?
    ensures exists n: nat :: n <= |st.pending| && Stalled(Run(st, n))
    decreases |st.pending|
  {
    var t := WaitsOn(Ids(LastLevel(st)));
    if |Filter(st.pending, t, true)| == 0 {
      assert Stalled(Run(st, 0));
    } else {
      FilterSplit(st.pending, t);
      var next := LoopStep(st);
      assert LastLevel(next) == Filter(st.pending, t, true);
      IterateNoneStalls(next);
      var n: nat :| n <= |next.pending| && Stalled(Run(next, n));
      assert Run(st, n + 1) == Run(next, n);
    }
  }

  /** The loop never ends from `st`: after any number of passes items remain. */
  ghost predicate NeverEnds(st: LoopState)
    requires |st.sequence| > 0
  {
    forall m: nat :: |Run(st, m).pending| > 0
  }

  lemma {:induction false} RunAdd(st: LoopState, n: nat, m: nat)
    requires |st.sequence| > 0
    ensures Run(st, n + m) == Run(Run(st, n), m)
    decreases n
  {
    if n > 0 {
      RunAdd(LoopStep(st), n - 1, m);
    }
  }

  /** The loop stops exactly when the layering terminates: with
      `Terminates`, it reaches an empty pending list with the levels of
      ExecutionSequence; without, it never ends. */
  lemma TerminatesIff(parsed: seq<Subrequest>)
    ensures var st := LoopState([Filter(parsed, IsRoot, true)], Filter(parsed, IsRoot, false));
      && (Terminates(parsed) ==> Run(st, |ExecutionSequence(parsed).value| - 1) == LoopState(ExecutionSequence(parsed).value, []))
      && (!Terminates(parsed) ==> NeverEnds(st))
  {
    var st := LoopState([Filter(parsed, IsRoot, true)], Filter(parsed, IsRoot, false));
    assert LastLevel(st) == Filter(parsed, IsRoot, true);
    if Terminates(parsed) {
      IterateRun(st);
    } else {
      StallNeverEnds(st);
    }
  }

  /** When the layering from a state finds no way to place the pending
      subrequests, the loop from that state never ends. */
  lemma StallNeverEnds(st: LoopState)
    requires |st.sequence| > 0
    requires Iterate(LastLevel(st), st.pending).None?
    ensures NeverEnds(st)
  {
    IterateNoneStalls(st);
    var n: nat :| n <= |st.pending| && Stalled(Run(st, n));
    forall m: nat ensures |Run(st, m).pending| > 0 {
      if m <= n {
        RunKeepsPending(st, m, n);
      } else {
        StallPersists(Run(st, n), m - n);
        RunAdd(st, n, m - n);
      }
    }
  }

  /** The pending list never grows, so if it is non-empty after `n` passes
      it was non-empty after any earlier number. */
  lemma {:induction false} RunKeepsPending(st: LoopState, m: nat, n: nat)
    requires |st.sequence| > 0 && m <= n
    ensures |Run(st, n).pending| <= |Run(st, m).pending|
    decreases n
  {
    if m < n {
      RunKeepsPending(st, m, n - 1);
      RunAdd(st, n - 1, 1);
      var s := Run(st, n - 1);
      if |s.pending| > 0 {
        FilterSplit(s.pending, WaitsOn(Ids(LastLevel(s))));
      }
    }
  }

  /** `buildExecutionSequence(parsed)`, with the source's loop. */
  method BuildExecutionSequence(parsed: seq<Subrequest>) returns (sequence: seq<seq<Subrequest>>)
    requires Terminates(parsed)
    ensures sequence == ExecutionSequence(parsed).value
  {
    sequence := [Filter(parsed, IsRoot, true)];
    var subreqsWithUnresolvedDeps := Filter(parsed, IsRoot, false);
    var sequencePosition := 0;
    while |subreqsWithUnresolvedDeps| > 0
      invariant |sequence| == sequencePosition + 1
      invariant Iterate(sequence[sequencePosition], subreqsWithUnresolvedDeps).Some?
      invariant ExecutionSequence(parsed) == Some(sequence + Iterate(sequence[sequencePosition], subreqsWithUnresolvedDeps).value)
      decreases |subreqsWithUnresolvedDeps|
    {
      var t := WaitsOn(Ids(sequence[sequencePosition]));
      var noDeps := Filter(subreqsWithUnresolvedDeps, t, true);
      IterateStep(sequence[sequencePosition], subreqsWithUnresolvedDeps);
      FilterMembers(subreqsWithUnresolvedDeps, t, true);
      DifferenceOfFilter(subreqsWithUnresolvedDeps, noDeps, t);
      ghost var tail := Iterate(noDeps, Filter(subreqsWithUnresolvedDeps, t, false)).value;
      assert sequence + [noDeps] + tail == sequence + ([noDeps] + tail);
      sequence := sequence + [noDeps];
      subreqsWithUnresolvedDeps := Difference(subreqsWithUnresolvedDeps, noDeps);
      sequencePosition := sequencePosition + 1;
      assert sequence[sequencePosition] == noDeps;
    }
  }

  /** The error of assigning a property to a primitive in strict mode. */
  const NotAnObject := TypeError("Cannot create property 'requestId' on a primitive")

  /** `fillDefaults` on one parsed blueprint entry. */
  function DefaultedItem(j: Json, freshId: string, codec: Codec): (r: Result<ItemFields>)
    ensures r.Ok? ==> r.value.resolved == Some(JBool(false))
  {
    match ReadItem(j)
    case None => Err(NotAnObject)
    case Some(f) => Defaulted(f, freshId, codec)
  }

  /** `input.map(fillDefaults)`, with `newId(i)` the id `uuid()` generates
      for item `i`. */
  function DefaultedItems(items: seq<Json>, newId: nat -> string, codec: Codec): (rs: seq<Result<ItemFields>>)
    ensures |rs| == |items|
    ensures forall i :: 0 <= i < |items| ==> rs[i] == DefaultedItem(items[i], newId(i), codec)
  {
    seq(|items|, i requires 0 <= i < |items| => DefaultedItem(items[i], newId(i), codec))
  }

  function TypedAll(items: seq<ItemFields>): (subs: seq<Subrequest>)
    requires IsValidTree(items)
    ensures |subs| == |items|
    ensures forall i :: 0 <= i < |items| ==> IsValidItem(items[i]) && subs[i] == Typed(items[i])
  {
    IsValidTreeIff(items);
    seq(|items|, i requires 0 <= i < |items| => Typed(items[i]))
  }

  /** `parse(text)`: `JSON.parse`, the schema check (the Ajv validator is
      the `schema` parameter, returning its violations), defaulting, the
      tree check and the layering. A tree that fails the check gives `[]`;
      a layering that never ends is reported as NonTerminating. */
  function Parse(text: string, codec: Codec, schema: Json -> seq<string>, newId: nat -> string): Result<seq<seq<Subrequest>>> {
    match codec.parse(text)
    case None => Err(InvalidJson(text))
    case Some(input) =>
      if |schema(input)| > 0 then Err(InvalidBlueprint(schema(input)))
      else if !input.JArr? then Err(TypeError("input.map is not a function"))
      else
        var parsed :- Collect(DefaultedItems(input.items, newId, codec));
        if !IsValidTree(parsed) then Ok([])
        else
          match ExecutionSequence(TypedAll(parsed))
          case None => Err(NonTerminating)
          case Some(levels) => Ok(levels)
  }

  /** What `parse` gives for a blueprint that parses, passes the schema and
      defaults without error: `[]` when some item fails the tree check,
      otherwise the layering of the defaulted items, whose first level holds
      the items that wait for the root and whose levels hold every item
      exactly once. */
  lemma ParseOutcome(text: string, codec: Codec, schema: Json -> seq<string>, newId: nat -> string)
    requires codec.parse(text).Some? && codec.parse(text).value.JArr? && |schema(codec.parse(text).value)| == 0
    requires Collect(DefaultedItems(codec.parse(text).value.items, newId, codec)).Ok?
    ensures var parsed := Collect(DefaultedItems(codec.parse(text).value.items, newId, codec)).value;
      && |parsed| == |codec.parse(text).value.items|
      && (IsValidTree(parsed) <==> forall i :: 0 <= i < |parsed| ==> IsValidItem(parsed[i]))
      && (!IsValidTree(parsed) ==> Parse(text, codec, schema, newId) == Ok([]))
      && (IsValidTree(parsed) ==>
            && (Parse(text, codec, schema, newId).Ok? <==> Terminates(TypedAll(parsed)))
            && (Parse(text, codec, schema, newId).Ok? ==>
                var levels := Parse(text, codec, schema, newId).value;
                |levels| >= 1 && multiset(Flatten(levels)) == multiset(TypedAll(parsed))
                && forall x :: x in levels[0] <==> x in TypedAll(parsed) && x.waitFor == Root))
  {
    var rs := DefaultedItems(codec.parse(text).value.items, newId, codec);
    CollectOk(rs);
    var parsed := Collect(rs).value;
    IsValidTreeIff(parsed);
    if IsValidTree(parsed) && Terminates(TypedAll(parsed)) {
      ExecutionSequencePartition(TypedAll(parsed));
      ExecutionSequenceRoots(TypedAll(parsed));
    }
  }

  /** Defaulting marks every item unresolved. */
  lemma DefaultedUnresolved(items: seq<Json>, newId: nat -> string, codec: Codec)
    requires Collect(DefaultedItems(items, newId, codec)).Ok?
    ensures forall i :: 0 <= i < |Collect(DefaultedItems(items, newId, codec)).value| ==>
      Collect(DefaultedItems(items, newId, codec)).value[i].resolved == Some(JBool(false))
  {
    CollectOk(DefaultedItems(items, newId, codec));
  }

  lemma TypedAllFacts(parsed: seq<ItemFields>)
    requires IsValidTree(parsed)
    requires forall i :: 0 <= i < |parsed| ==> parsed[i].resolved == Some(JBool(false))
    ensures forall x :: x in TypedAll(parsed) ==> !x.resolved && x.action in Actions
  {
  }

  /** Every subrequest of `levels` is unresolved and names one of the seven actions. */
  predicate AllFresh(levels: seq<seq<Subrequest>>) {
    forall k, x :: 0 <= k < |levels| && x in levels[k] ==> !x.resolved && x.action in Actions
  }

  /** Every item of a level is an input item. */
  lemma LevelMember(parsed: seq<Subrequest>, k: nat, x: Subrequest)
    requires Terminates(parsed) && k < |ExecutionSequence(parsed).value|
    requires x in ExecutionSequence(parsed).value[k]
    ensures x in parsed
  {
    var levels := ExecutionSequence(parsed).value;
    ExecutionSequencePartition(parsed);
    FlattenMember(levels, k, x);
    assert x in multiset(parsed);
  }

  /** The layering only regroups items, so it keeps every item's fields. */
  lemma LevelsFresh(subs: seq<Subrequest>)
    requires Terminates(subs)
    requires forall x :: x in subs ==> !x.resolved && x.action in Actions
    ensures AllFresh(ExecutionSequence(subs).value)
  {
    var levels := ExecutionSequence(subs).value;
    forall k: nat, x: Subrequest | k < |levels| && x in levels[k] ensures !x.resolved && x.action in Actions {
      LevelMember(subs, k, x);
    }
  }

  /** Every subrequest the parser produces starts unresolved and carries
      one of the seven actions. */
  lemma ParsedSubrequests(text: string, codec: Codec, schema: Json -> seq<string>, newId: nat -> string)
    requires Parse(text, codec, schema, newId).Ok?
    ensures AllFresh(Parse(text, codec, schema, newId).value)
  {
    var input := codec.parse(text).value;
    DefaultedUnresolved(input.items, newId, codec);
    var parsed := Collect(DefaultedItems(input.items, newId, codec)).value;
    if IsValidTree(parsed) {
      TypedAllFacts(parsed);
      LevelsFresh(TypedAll(parsed));
    }
  }
}
