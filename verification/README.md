# subrequests, modelled in Dafny

`subrequests` takes a *blueprint*: a JSON array of subrequests. Each one has
a `requestId`, an `action`, a `uri`, optional `headers` and `body`, and an
optional `waitFor` naming the request it depends on. The library
1. turns the blueprint into an execution sequence of batches (`BlueprintManager`);
2. issues the batches one after the other. A batch is sent only once every
   earlier batch has been answered (`SubrequestsManager`);
3. before a batch goes out, expands each `{{request.body@$.json.path}}` token
   in a URI or body against the responses gathered so far. There is one copy
   of the subrequest per combination of values (`JsonPathReplacer`);
4. sends the batch through a requestor (`HttpRequestor`) and tags every
   response with the `Content-ID` of the request that produced it;
5. can merge the responses into one `multipart/related` document
   (`MultipartRelatedResponse`, `ResponseMergerBase`).

The project has one Dafny module per source file, plus shared helper
modules:
- `Wrappers`, `Types`: Option, Result with first-error `Collect`, Subrequest, Response.
- `Json`: JSON values and a `Codec` for `JSON.parse`/`JSON.stringify`/`jsonpath.query`.
- `Text`: index search, split and join, decimal text.
- `Assoc`: JS `Map` and plain objects as ordered association lists.
- `ObjectKeys`: the order `Object.keys` lists keys in.
- `TokenScanner`, `LiteralReplace`, `CartesianPoints`, `TokenReplacements`: the parts of `JsonPathReplacer.js`.

Code that loops over its data in the source is modelled as Dafny methods
with `while` loops. Each method is proved equal to a specification function,
and the properties are proved as lemmas about that function. Objects the
source changes in place (a response whose headers get a `Content-ID`, a raw
blueprint item filled with defaults) are classes with `modifies` clauses.

## Model

| member | source | states |
|---|---|---|
| Types.CollectOk | src/SubrequestsManager.js:58 | `Promise.all` over per-item results succeeds iff every item succeeds, keeps the count and the order |
| Types.CollectFirstError | src/SubrequestsManager.js:58 | when items fail, the outcome is the error of the first failing one |
| Assoc.Set | src/SubrequestsManager.js:133 | `Map.set` gives the new value under its key and leaves every other key's value as it was |
| Assoc.SetKeys | src/SubrequestsManager.js:133 | `Map.set` keeps an existing key in place and appends a new one at the end |
| Assoc.SetAllGet | src/HttpRequestor.js:37-44 | copying entries one by one with `set`: every copied key reads the copied value, every other key its old value |
| Assoc.SetAllKeys | src/HttpRequestor.js:37-44 | after copying, the keys are the old keys followed by the copied keys that were new, in order |
| ObjectKeys.OwnKeysOrder | src/HttpRequestor.js:108-109 | `Object.keys` lists the same names as were inserted: array-index names first in ascending numeric order, then the other names in insertion order |
| ObjectKeys.OwnKeysWithoutIndices | src/HttpRequestor.js:108-109 | without array-index names, `Object.keys` is the insertion order |
| ObjectKeys.OwnKeysDistinct | src/HttpRequestor.js:108-109 | `Object.keys` lists no name twice |
| Text.SplitJoin | src/MultipartRelatedResponse.js:51-54 | splitting a join on its separator gives back the parts, provided no part holds the separator except at its end |
| Text.DecimalRoundTrip | src/JsonPathReplacer.js:116 | the decimal text of a copy index reads back as that index |
| Text.FirstIndexIsFirst | src/HttpRequestor.js:34 | `indexOf` finds the first occurrence: none occurs before the index found, and none at all when nothing is found |
| Text.FirstIndexFromIsFirst | src/JsonPathReplacer.js:150-158 | a search from an index finds the first occurrence at or after it, or reports that there is none |
| Text.NatToStringInjective | src/JsonPathReplacer.js:116 | two copy indices with the same decimal text are equal |
| TokenScanner.TokensAreTokens | src/JsonPathReplacer.js:350-361 | every token found has the form `{{subject@path}}`, occurs in the text at its position, and the tokens come in text order without overlap |
| TokenScanner.NoTokensIff | src/JsonPathReplacer.js:350-361 | no tokens are found exactly when no position of the text starts a token |
| TokenScanner.TokenShapeMatches | src/JsonPathReplacer.js:350-361 | a `{{x@y}}` occurrence without `{` in `x` and `y` is found |
| TokenScanner.NoBracesNoTokens | src/JsonPathReplacer.js:350-361 | a text without `{{` has no tokens |
| TokenScanner.FindTokensLoop | src/JsonPathReplacer.js:350-361 | the `exec` loop collects exactly the matches of the token expression, in order |
| TokenScanner.NextMatchIsFirst | src/JsonPathReplacer.js:353-358 | each `exec` returns the match at the first index where the expression matches, and `null` only when it matches at no index left |
| TokenScanner.TokensInOrder | src/JsonPathReplacer.js:350-361 | the global expression resumes after each match, so the matches come in text order and do not overlap |
| TokenScanner.LastCloseIsLast | src/JsonPathReplacer.js:351 | the greedy second group ends at the last `}}` the `[^{]` run allows |
| TokenScanner.LastAtIsLast | src/JsonPathReplacer.js:351 | the greedy first group ends at the last `@` before the closing `}}` |
| LiteralReplace.EscapeIsLiteral | src/JsonPathReplacer.js:156 | escaping a token for a regular expression loses nothing: unescaping gives the token back |
| LiteralReplace.PlainSubstitution | src/JsonPathReplacer.js:157 | a replacement value without `$` is inserted literally |
| LiteralReplace.ReplaceIsSplitJoin | src/JsonPathReplacer.js:150-158 | when every match stands for the same text, the global replace equals splitting the subject on the token and joining with that text |
| LiteralReplace.JoinSplit | src/JsonPathReplacer.js:150-158 | joining the pieces of a split on the token with the token gives the subject back |
| LiteralReplace.DollarFreeReplaceIsSplitJoin | src/JsonPathReplacer.js:150-158 | a global replace by a `$`-free value equals splitting the subject on the token and joining with the value |
| LiteralReplace.AbsentTokenUnchanged | src/JsonPathReplacer.js:150-158 | a subject without the token is unchanged |
| LiteralReplace.MatchPatternRestores | src/JsonPathReplacer.js:150-158 | the replacement pattern `$&` puts each match back, so the subject is unchanged |
| CartesianPoints.PointsShape | src/JsonPathReplacer.js:172-192 | there are as many points as the product of the group sizes, and each point has one entry per group |
| CartesianPoints.PointsPickFromGroups | src/JsonPathReplacer.js:172-192 | the k-th entry of every point comes from the k-th group |
| CartesianPoints.EveryChoiceIsAPoint | src/JsonPathReplacer.js:172-192 | every way of choosing one entry per group is a point |
| CartesianPoints.PointsIndex | src/JsonPathReplacer.js:172-192 | the points are ordered with the first group varying slowest |
| CartesianPoints.GetPoints | src/JsonPathReplacer.js:172-192 | the recursion with its nested `forEach` loops computes exactly the Cartesian product of the groups |
| TokenReplacements.UniqByTextSpec | src/JsonPathReplacer.js:276 | `uniqBy` on the token text keeps matches with distinct texts, all taken from the input, and loses no text |
| TokenReplacements.UniqByTextFirst | src/JsonPathReplacer.js:276 | `uniqBy` keeps, in input order, exactly the matches no earlier match shares a text with |
| TokenReplacements.StripHashOfDerivedId | src/JsonPathReplacer.js:284 | removing `#.*` from a copy's id `base#suffix` gives the base id back |
| TokenReplacements.ContentId | src/JsonPathReplacer.js:404-406 | the `Content-ID` header without its first and last character, or empty when it is shorter than two characters or absent |
| TokenReplacements.Subjects | src/JsonPathReplacer.js:283-292 | the subjects of an id are pool responses whose base Content-ID is that id, and there are none iff the id is not among the candidates |
| TokenReplacements.SubjectsFilter | src/JsonPathReplacer.js:283-288 | the subjects are the pool responses at increasing positions, and those positions are exactly the ones whose base Content-ID is the id |
| TokenReplacements.SubjectsMembers | src/JsonPathReplacer.js:283-288 | a response is a subject iff it is in the pool and its base Content-ID is the id |
| TokenReplacements.ScalarsFromIff | src/JsonPathReplacer.js:377-384 | the `reduce` with its `valid` accumulator is true iff it starts true and every item is a string or a number |
| TokenReplacements.ValidateIff | src/JsonPathReplacer.js:376-389 | replacement values are accepted iff they form an array of strings or numbers; the empty array is accepted |
| TokenReplacements.AddValues | src/JsonPathReplacer.js:333-335 | the cell of (id, token) gets the new values appended; every other cell is unchanged |
| TokenReplacements.AddReplacementsForSubject | src/JsonPathReplacer.js:321-336 | succeeds iff the subject's body parses and its path values validate, and then appends those values to the cell |
| TokenReplacements.AddForSubjectsFails | src/JsonPathReplacer.js:294-299 | adding over the subjects fails exactly when some subject's values cannot be read |
| TokenReplacements.AddForSubjectsSpec | src/JsonPathReplacer.js:294-299 | adding over the subjects appends their values, concatenated in pool order, to the cell |
| TokenReplacements.ExtractFromFrame | src/JsonPathReplacer.js:278-302 | the reduce changes only the cells of the matches it goes through |
| TokenReplacements.ExtractFromHead | src/JsonPathReplacer.js:278-302 | one step of the reduce: a token naming no response ends it with the unresolvable-reference error, a failing subject ends it with the query error, otherwise it goes on with the values added |
| TokenReplacements.ExtractFromFills | src/JsonPathReplacer.js:278-302 | after the reduce, the cell of every distinct token holds the concatenated values of all its subjects |
| TokenReplacements.ExtractFromUnresolvable | src/JsonPathReplacer.js:289-292 | a token naming no response fails with that id and the pool's candidate ids |
| TokenReplacements.ExtractTokenReplacementsSpec | src/JsonPathReplacer.js:265-303 | on success the table holds, for every distinct token, the concatenated values of its subjects, and no other cell; a token naming no response fails with that id and the pool's candidate ids |
| TokenReplacements.ExtractEmptyIffNoTokens | src/JsonPathReplacer.js:265-303 | a successful extraction is empty exactly when the text holds no token |
| Assoc.FirstOccurrencesSpec | src/JsonPathReplacer.js:333-334 | the keys a sequence of `||`-guarded assignments creates are the new keys, each once |
| TokenReplacements.AddValuesKeys | src/JsonPathReplacer.js:333-335 | adding values appends the id entry when it is new and the token entry under it when it is new, and changes no other key order |
| TokenReplacements.ExtractFromKeys | src/JsonPathReplacer.js:276-303 | the reduce keeps the ids already present in place and appends the new ids in the order the matches first refer to them |
| TokenReplacements.ExtractFromInnerKeys | src/JsonPathReplacer.js:276-303 | under each id, the reduce keeps the tokens already present and appends the new tokens in match order |
| TokenReplacements.ExtractTokenReplacementsOrder | src/JsonPathReplacer.js:265-303 | on success the ids are inserted as the distinct ids of the deduplicated matches, in first-appearance order; under each id the tokens are inserted as the distinct texts of the matches with that id, in order (`Object.keys` later reorders array-index names) |
| TokenReplacements.ExtractFromKeepsEntriesNonEmpty | src/JsonPathReplacer.js:333-335 | every id in the table has at least one token |
| JsonPathReplacer.GroupsOfTokensSpec | src/JsonPathReplacer.js:107-110 | one group per token of an id, in key order, each pairing the token with each of its values |
| JsonPathReplacer.GroupByToken | src/JsonPathReplacer.js:104-111 | the nested `forEach` loops build the groups of every id in `Object.keys` order |
| JsonPathReplacer.DerivedIdsDistinct | src/JsonPathReplacer.js:116 | two copies with the same id `id#location{i}` have the same index |
| JsonPathReplacer.MemberRoundTrip | src/JsonPathReplacer.js:210-238 | deserializing a serialized member gives the subrequest back, for a codec that reads its own output |
| JsonPathReplacer.ApplyAbsentPoint | src/JsonPathReplacer.js:120-126 | a point whose tokens are absent from the text leaves it unchanged |
| JsonPathReplacer.CloneFields | src/JsonPathReplacer.js:114-129 | a copy differs from its subrequest only in its id and in the member being replaced |
| JsonPathReplacer.DoReplaceCopies | src/JsonPathReplacer.js:95-133 | one copy per point of the groups, in point order; a URI expansion cannot fail |
| JsonPathReplacer.DoReplaceIds | src/JsonPathReplacer.js:114-129 | the i-th copy has id `id#location{i}` and keeps every field except the replaced member |
| JsonPathReplacer.ClonesForPoints | src/JsonPathReplacer.js:114-130 | the loop over the points pushes the copy of each point in order and stops at the first error |
| JsonPathReplacer.DoReplaceTokensInLocation | src/JsonPathReplacer.js:95-133 | the method computes the copies of the specification function |
| JsonPathReplacer.ReplaceBatchConcat | src/JsonPathReplacer.js:35-42 | a batch of one is its item, and replacing a concatenation of batches concatenates their replacements |
| JsonPathReplacer.ReplaceItemFuel | src/JsonPathReplacer.js:58-78 | once the recursion bound suffices, a larger bound gives the same result |
| JsonPathReplacer.NoTokensResolved | src/JsonPathReplacer.js:75-77 | a subrequest without tokens comes back alone, marked resolved |
| JsonPathReplacer.ReplaceItemResolves | src/JsonPathReplacer.js:58-78 | every subrequest that comes back is resolved, holds no token in URI or body, and has an id extending the original's |
| JsonPathReplacer.ExpandUriFirst | src/JsonPathReplacer.js:63-74 | a step expands the URI when it holds tokens and only otherwise the body |
| JsonPathReplacer.ExpandCases | src/JsonPathReplacer.js:63-74 | a step finds nothing exactly when both token tables are empty; otherwise it expands the URI table when that is non-empty, else the body table |
| JsonPathReplacer.DoReplaceDescends | src/JsonPathReplacer.js:114-129 | every copy has an id extending `id#location{` and keeps the dependency, action and headers |
| JsonPathReplacer.ReplaceItemUriFirst | src/JsonPathReplacer.js:63-68 | when the URI holds tokens, every result id starts with `id#uri{` |
| BlueprintManager.Defaulted | src/BlueprintManager.js:53-63 | the defaults: a fresh id when none is set, `waitFor` `<ROOT>`, empty headers, the body parsed from its JSON text, `resolved` false; the one failure is a body that does not parse |
| BlueprintManager.BlueprintItem.FillDefaults | src/BlueprintManager.js:53-63 | filling in place leaves the defaulted item, or, when the body does not parse, the item with only its id filled |
| BlueprintManager.IsValidTreeIff | src/BlueprintManager.js:124-143 | a tree is valid iff every item has its required keys, its string fields are strings and its headers an object; the empty tree is valid |
| BlueprintManager.Typed | src/BlueprintManager.js:124-143 | a valid item reads as a subrequest with the same fields and a known action |
| BlueprintManager.ExecutionSequenceRoots | src/BlueprintManager.js:79-82 | there is at least one batch, and the first holds exactly the subrequests waiting on the root, in blueprint order |
| BlueprintManager.ExecutionSequenceLayers | src/BlueprintManager.js:87-92 | every subrequest of a later batch waits on a request of the batch before it, never on the root, and no later batch is empty |
| BlueprintManager.ExecutionSequencePartition | src/BlueprintManager.js:78-94 | the batches hold each subrequest exactly once, each batch in blueprint order |
| BlueprintManager.TerminatesReaches | src/BlueprintManager.js:78-94 | when the sequence is built, every subrequest's `waitFor` chain through declared request ids reaches `<ROOT>` within as many steps as there are subrequests |
| BlueprintManager.IterateTerminates | src/BlueprintManager.js:85-92 | when every subrequest reaches the root, each pass places something and the loop ends |
| BlueprintManager.TerminatesIffReachesRoot | src/BlueprintManager.js:78-94 | the sequence is built iff every subrequest's `waitFor` chain through declared request ids ends at `<ROOT>` |
| BlueprintManager.TerminatesIff | src/BlueprintManager.js:87-92 | the `while` loop ends iff the level computation succeeds, and otherwise appends empty batches for ever |
| BlueprintManager.StallPersists | src/BlueprintManager.js:87-92 | once a pass places nothing while items remain, every later pass pushes an empty batch and leaves the pending items as they are |
| BlueprintManager.StallNeverEnds | src/BlueprintManager.js:87-92 | when the layering cannot place the pending items, the pending list never becomes empty |
| BlueprintManager.IterateRun | src/BlueprintManager.js:87-92 | when the layering succeeds, the loop pushes exactly its batches and ends with nothing pending |
| BlueprintManager.BuildExecutionSequence | src/BlueprintManager.js:78-94 | the loop builds exactly the execution sequence |
| BlueprintManager.ParseOutcome | src/BlueprintManager.js:33-42 | for a blueprint that parses, passes the schema and takes its defaults: an invalid tree gives no batches; a valid one gives an execution sequence iff the layering terminates, with the roots first and every item exactly once |
| BlueprintManager.ParsedSubrequests | src/BlueprintManager.js:33-42 | every parsed subrequest is unresolved and has a known action |
| ResponseMergerBase.Cleaned | src/ResponseMergerBase.js:37-40 | one CRLF at the very end of the body is removed and nothing else changes |
| ResponseMergerBase.CleanedIsPrefix | src/ResponseMergerBase.js:37-40 | the cleaned body is a prefix of the body, shorter by 0 or 2 characters |
| ResponseMergerBase.CleanedOnce | src/ResponseMergerBase.js:37-40 | only one CRLF is removed from a body ending in two |
| ResponseMergerBase.CleanResponse | src/ResponseMergerBase.js:37-40 | cleaning in place leaves the cleaned response and returns the same object |
| ResponseMergerBase.NegotiateCases | src/ResponseMergerBase.js:57-69 | the shared non-empty content type when all responses agree; the default when two disagree or there are none |
| ResponseMergerBase.NegotiateSubContentType | src/ResponseMergerBase.js:57-69 | the loop computes the negotiated content type |
| MultipartRelatedResponse.SerializeResponse | src/MultipartRelatedResponse.js:69-78 | the loop over the headers builds the header lines, a blank line and the body |
| MultipartRelatedResponse.ReadSerialized | src/MultipartRelatedResponse.js:69-78 | reading a serialized part back gives its headers and body, for header names and values free of `:` and line breaks |
| MultipartRelatedResponse.Parts | src/MultipartRelatedResponse.js:47-49 | one part per response, in order, each the serialization of the cleaned response |
| MultipartRelatedResponse.Merged | src/MultipartRelatedResponse.js:26-56 | the merged response has status 207 and a `multipart/related` content type with the boundary and the negotiated type |
| MultipartRelatedResponse.MergedRoundTrip | src/MultipartRelatedResponse.js:51-54 | removing the framing from a merged body and splitting on the separator gives back the parts, when no part holds the separator except at its end |
| MultipartRelatedResponse.SeparatorFreeIsNotEnough | src/MultipartRelatedResponse.js:51-54 | a body holding only the start of a separator can join the following CRLF into a separator, so two parts read back as one |
| MultipartRelatedResponse.MergedEmpty | test/src/MultipartRelatedResponseTest.js:51 | no responses give a body of just the opening and closing delimiters, with the default content type |
| MultipartRelatedResponse.MergeResponses | src/MultipartRelatedResponse.js:26-56 | the method builds a fresh response equal to the merge |
| SubrequestsManager.TranslateResponses | src/SubrequestsManager.js:89-94 | each response is translated, keeping count and order |
| SubrequestsManager.Tagged | src/SubrequestsManager.js:129-134 | tagging fails iff the id is missing or empty; otherwise `Content-ID` becomes `<id>` and the body and the other headers stay |
| SubrequestsManager.TaggedKeys | src/SubrequestsManager.js:133 | an existing `Content-ID` keeps its place among the headers, a new one comes last |
| SubrequestsManager.TaggedContentId | src/SubrequestsManager.js:129-134 | the Content-ID the replacer reads from a tagged response is the request id |
| SubrequestsManager.TaggedCopyMatchesBase | src/SubrequestsManager.js:129-134 | a response tagged with a copy's id `base#suffix` is a subject for tokens naming `base` |
| SubrequestsManager.SetRequestIdInResponse | src/SubrequestsManager.js:129-134 | tagging in place: the tagged response on success, or `MissingRequestId` with the response untouched |
| SubrequestsManager.SetRequestIdInResponses | src/SubrequestsManager.js:107-112 | every response is tagged with its own `x-subrequest-id`; fails iff some response lacks one |
| SubrequestsManager.TaggedResponsesIds | src/SubrequestsManager.js:107-112 | each tagged response keeps its `x-subrequest-id` and has it as its Content-ID |
| SubrequestsManager.RoundTags | src/SubrequestsManager.js:55-63 | every response of a round carries a Content-ID equal to its own `x-subrequest-id` |
| SubrequestsManager.RoundsOkAt | src/SubrequestsManager.js:49-74 | round j is issued against the pool of all earlier rounds' responses |
| SubrequestsManager.ProcessOutcome | src/SubrequestsManager.js:49-74 | the recursion succeeds iff every round does, with the responses of all rounds in order; otherwise it fails with the error of the first failing round |
| SubrequestsManager.RequestRounds | src/SubrequestsManager.js:27-30 | a request issues batch j against the responses of batches before j, and returns all responses in batch order or the first round's error |
| SubrequestsManager.RequestEmpty | src/SubrequestsManager.js:55-57 | an empty tree fails with the type error of reading a property of `undefined` |
| HttpRequestor.ActionToMethod | src/HttpRequestor.js:148-168 | the known actions map to HTTP methods; any other action is an error naming it |
| HttpRequestor.ActionToMethodTable | src/HttpRequestor.js:148-168 | view→GET, create→POST, update→PATCH, replace→PUT, delete→DELETE, exists→HEAD, discover→OPTIONS, and no two actions share a method |
| HttpRequestor.MethodNamesAction | src/HttpRequestor.js:148-168 | the method an action maps to determines the action |
| HttpRequestor.UriWithQuery | src/HttpRequestor.js:34-36 | the URI is the text before the first `?`, the query the text up to the next `?` |
| HttpRequestor.UriWithoutQuery | src/HttpRequestor.js:34-36 | a URI without `?` is kept and has an empty query |
| HttpRequestor.UriWithTwoQueries | src/HttpRequestor.js:34-36 | text after a second `?` is dropped |
| HttpRequestor.RequestContentType | src/HttpRequestor.js:46-47 | `Content-Type` is used when non-empty; when it is absent or empty the value of `content-type` is used, or the empty string |
| HttpRequestor.LowerCaseMethods | src/HttpRequestor.js:53 | each of the seven actions is sent with the lower-case name of its method: get, post, patch, put, delete, head, options |
| HttpRequestor.BodyOf | src/HttpRequestor.js:49-51 | a body is sent iff it is truthy |
| HttpRequestor.OptionsOutcome | src/HttpRequestor.js:31-56 | options are built iff the headers are a `Map` and the action is known; a plain-object header is a type error |
| HttpRequestor.OptionsHeaders | src/HttpRequestor.js:37-44 | the request headers are `x-subrequest-id` first and then the subrequest's headers, the latter winning on the same name |
| HttpRequestor.OptionsFlags | src/HttpRequestor.js:46-53 | `json` iff the content type ends in `/json` or `+json`; the method is the lower-cased HTTP method; the body only when truthy |
| HttpRequestor.BuildOptions | src/HttpRequestor.js:31-56 | the `forEach` copy loop builds exactly the options |
| HttpRequestor.RequestInParallel | src/HttpRequestor.js:31-56 | one set of options per subrequest, in order, or the first error |
| HttpRequestor.LibEntries | src/HttpRequestor.js:108-109 | the header pairs come in `Object.keys` order, each with its value |
| HttpRequestor.TranslatedHeaders | src/HttpRequestor.js:106-111 | every header of the library response reads the same in the translated `Map`, whose keys come in `Object.keys` order |
| HttpRequestor.TranslatedHeadersInOrder | src/HttpRequestor.js:106-111 | without array-index names, the translated headers equal the library's |
| HttpRequestor.TranslateResponseFromLibFormat | src/HttpRequestor.js:106-111 | the body is kept |
| HttpRequestor.DispatchOnePerSubrequest | src/HttpRequestor.js:31-56 | one library response per subrequest, each the transport's answer to that subrequest's options |

## Left out

- `src/index.js` and `exampleServer.js` (the HTTP front end) are not part of this model.
- Promises and concurrency: `Promise.all` fails with the first rejection in time; the model returns the first error in order.
- `_individualRequest` and `_setSubrequestResponseHeader` are not modelled: the transport is the `send` parameter of `HttpRequestor.AsRequestor`.
- The `x-subrequest-id` response header that `_setSubrequestResponseHeader` adds is taken to be present in what `send` returns.
- JSON parsing and printing and `jsonpath.query` are the abstract `Codec` parameter. The model does not fix their behaviour; a lemma assumes a round trip only where it needs one.
- Ajv schema validation is the `schema` parameter of `BlueprintManager.Parse`.
- The `uuid` generator is the `newId` parameter.
- `querystring.parse` is not modelled: the options keep the raw query text.
- The `content-type` library is not modelled: the boundary is always quoted and never escaped.
- `_generateDelimiter`: the random boundary is a parameter of `MultipartRelatedResponse.MergeResponses`.
- JsonPathReplacer.ReplaceItem: the unbounded recursion of `replaceItem` is bounded by fuel. `ReplaceItemFuel` shows the bound changes nothing once it suffices.
- BlueprintManager.BuildExecutionSequence: requires `Terminates`, because the source loops for ever on a dependency cycle or an unknown `waitFor`. `TerminatesIff` proves that, and `TerminatesIffReachesRoot` characterises when it holds. `Parse` returns `NonTerminating` there.
- CartesianPoints.GetPoints: requires at least one group. With none the source throws a type error; `JsonPathReplacer.DoReplace` models that case before calling it.
- Aliasing: `cloneDeep` and in-place mutation of pooled responses are modelled on values only.
- MultipartRelatedResponse.MergeResponses: cleans copies, whereas the source also cleans the caller's response objects in place.
- `__proto__` keys and duplicate JSON member names are not modelled.
- Ids and token texts that name an inherited `Object.prototype` member (`constructor`, `toString`, `valueOf`, `hasOwnProperty`, …) are not modelled. The source's `tokenReplacements[providedId] || {}` would reuse the inherited member, so tokens could be kept across calls; the model starts every id's entry empty.
- Headers given as a plain object: their iteration is modelled in insertion order, not in `Object.keys`' numeric-first order.
- Under `json: true` the request library parses JSON bodies; in the model bodies stay text.
- Boxed `String`/`Number` values are not modelled.
- SubrequestsManager.SetRequestIdInResponse: the error message's `JSON.stringify(response)` text is not modelled; only the error kind is.
