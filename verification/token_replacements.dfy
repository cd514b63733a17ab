/** `_extractTokenReplacements` and its helpers: which tokens a subrequest
    member holds, which prior responses each token refers to, and the values
    the token's path yields on them. */
module TokenReplacements {
  import opened Wrappers
  import opened Json
  import opened Text
  import opened Assoc
  import opened Types
  import opened TokenScanner

  /** The texts of a list of matches. */
  function Texts(ms: seq<Match>): (ts: seq<string>)
    ensures |ts| == |ms|
    ensures forall i :: 0 <= i < |ms| ==> ts[i] == ms[i].text
  {
    if |ms| == 0 then [] else [ms[0].text] + Texts(ms[1..])
  }

  /** `_.uniqBy(ms, '0')` after the texts `seen` were already taken. */
  function UniqFrom(ms: seq<Match>, seen: seq<string>): seq<Match>
  {
    if |ms| == 0 then []
    else if ms[0].text in seen then UniqFrom(ms[1..], seen)
    else [ms[0]] + UniqFrom(ms[1..], seen + [ms[0].text])
  }

  /** `_.uniqBy(matches, '0')`: the first match of each distinct text, in order. */
  function UniqByText(ms: seq<Match>): seq<Match> {
    UniqFrom(ms, [])
  }

  predicate DistinctTexts(ms: seq<Match>) {
    forall i, j :: 0 <= i < j < |ms| ==> ms[i].text != ms[j].text
  }

  /** The kept matches come from `ms`, have texts not yet seen, and have distinct texts. */
  lemma {:induction false} UniqFromDistinct(ms: seq<Match>, seen: seq<string>)
    ensures forall i :: 0 <= i < |UniqFrom(ms, seen)| ==> UniqFrom(ms, seen)[i] in ms && UniqFrom(ms, seen)[i].text !in seen
    ensures DistinctTexts(UniqFrom(ms, seen))
  {
    if |ms| > 0 {
      var m := ms[0];
      var tail := ms[1..];
      assert forall x :: x in tail ==> x in ms;
      if m.text in seen {
        UniqFromDistinct(tail, seen);
        assert UniqFrom(ms, seen) == UniqFrom(tail, seen);
      } else {
        var seen' := seen + [m.text];
        UniqFromDistinct(tail, seen');
        var rest := UniqFrom(tail, seen');
        var r := UniqFrom(ms, seen);
        assert r == [m] + rest;
        assert forall j :: 0 < j < |r| ==> r[j] == rest[j - 1];
        assert forall j :: 0 <= j < |rest| ==> rest[j].text != m.text;
      }
    }
  }

  /** Every text of `ms` not yet seen is kept. */
  lemma {:induction false} UniqFromKeepsTexts(ms: seq<Match>, seen: seq<string>)
    ensures forall t :: t in Texts(ms) && t !in seen ==> t in Texts(UniqFrom(ms, seen))
  {
    if |ms| > 0 {
      var m := ms[0];
      var tail := ms[1..];
      assert Texts(ms) == [m.text] + Texts(tail);
      if m.text in seen {
        UniqFromKeepsTexts(tail, seen);
        assert UniqFrom(ms, seen) == UniqFrom(tail, seen);
      } else {
        var seen' := seen + [m.text];
        UniqFromKeepsTexts(tail, seen');
        assert UniqFrom(ms, seen) == [m] + UniqFrom(tail, seen');
        assert Texts(UniqFrom(ms, seen)) == [m.text] + Texts(UniqFrom(tail, seen'));
      }
    }
  }

  /** The deduplicated matches have distinct texts, each is one of the
      matches, and every text of the matches is kept. */
  lemma UniqByTextSpec(ms: seq<Match>)
    ensures DistinctTexts(UniqByText(ms))
    ensures forall i :: 0 <= i < |UniqByText(ms)| ==> UniqByText(ms)[i] in ms
    ensures forall t :: t in Texts(ms) <==> t in Texts(UniqByText(ms))
  {
    UniqFromDistinct(ms, []);
    UniqFromKeepsTexts(ms, []);
    var r := UniqByText(ms);
    assert r == UniqFrom(ms, []);
    forall t | t in Texts(r) ensures t in Texts(ms) {
      var k :| 0 <= k < |r| && Texts(r)[k] == t;
      assert r[k] in ms;
      var i :| 0 <= i < |ms| && ms[i] == r[k];
      assert Texts(ms)[i] == t;
    }
  }

  lemma {:induction false} UniqOfNone(ms: seq<Match>, seen: seq<string>)
    ensures UniqFrom(ms, seen) == [] <==> forall i :: 0 <= i < |ms| ==> ms[i].text in seen
  {
    if |ms| > 0 {
      UniqOfNone(ms[1..], seen);
      if ms[0].text in seen {
        assert forall i :: 0 < i < |ms| ==> ms[i] == ms[1..][i - 1];
      }
    }
  }

  /** Match `i` is the first of its text and its text is not in `seen`. */
  predicate FirstNew(ms: seq<Match>, seen: seq<string>, i: nat)
    requires i < |ms|
  {
    ms[i].text !in seen && forall j :: 0 <= j < i ==> ms[j].text != ms[i].text
  }

  /** `_.uniqBy` keeps, in order, exactly the matches that are the first of
      their text (and whose text was not already seen): the kept matches are
      those at the increasing positions `idx`. */
  lemma {:induction false} UniqFromFirst(ms: seq<Match>, seen: seq<string>) returns (idx: seq<nat>)
    ensures |idx| == |UniqFrom(ms, seen)| && Increasing(idx, |ms|)
    ensures forall k :: 0 <= k < |idx| ==> UniqFrom(ms, seen)[k] == ms[idx[k]]
    ensures forall i :: 0 <= i < |ms| ==> (i in idx <==> FirstNew(ms, seen, i))
  {
    if |ms| == 0 {
      idx := [];
    } else {
      var m := ms[0];
      var hit := m.text !in seen;
      var seen' := if hit then seen + [m.text] else seen;
      var idx' := UniqFromFirst(ms[1..], seen');
      idx := FilterIndexStep(ms, UniqFrom(ms, seen), UniqFrom(ms[1..], seen'), idx', hit);
      forall i | 0 < i < |ms| ensures i in idx <==> FirstNew(ms, seen, i) {
        FirstNewTail(ms, seen, i);
      }
    }
  }

  /** How being first and new at `i > 0` reads on the tail. */
  lemma FirstNewTail(ms: seq<Match>, seen: seq<string>, i: nat)
    requires 0 < i < |ms|
    ensures var seen' := if ms[0].text !in seen then seen + [ms[0].text] else seen;
      FirstNew(ms, seen, i) <==> FirstNew(ms[1..], seen', i - 1)
  {
    var tail := ms[1..];
    assert tail[i - 1] == ms[i];
    assert forall j :: 0 <= j < i - 1 ==> tail[j] == ms[j + 1];
    if FirstNew(tail, seen, i - 1) && ms[0].text in seen {
      assert ms[0].text != ms[i].text;
    }
  }

  /** `_.uniqBy(matches, '0')` keeps the first match of each text, in order. */
  lemma UniqByTextFirst(ms: seq<Match>) returns (idx: seq<nat>)
    ensures |idx| == |UniqByText(ms)| && Increasing(idx, |ms|)
    ensures forall k :: 0 <= k < |idx| ==> UniqByText(ms)[k] == ms[idx[k]]
    ensures forall i :: 0 <= i < |ms| ==>
      (i in idx <==> forall j :: 0 <= j < i ==> ms[j].text != ms[i].text)
  {
    idx := UniqFromFirst(ms, []);
  }

  /** `id.replace(/\.body$/, '')`: one trailing `.body` is removed. */
  function StripBodySuffix(id: string): (r: string)
    ensures r <= id
    ensures |id| - |r| == (if EndsWith(id, ".body") then 5 else 0)
  {
    if EndsWith(id, ".body") then id[..|id| - 5] else id
  }

  /** The characters `.` does not match in a regular expression. */
  predicate IsLineTerminator(c: char) {
    c == '\n' || c == '\r' || c == '\U{2028}' || c == '\U{2029}'
  }

  /** The first line terminator at or after `i`, or the end of `s`. */
  function LineEnd(s: string, i: nat): (e: nat)
    requires i <= |s|
    ensures i <= e <= |s|
    ensures forall k :: i <= k < e ==> !IsLineTerminator(s[k])
    ensures e < |s| ==> IsLineTerminator(s[e])
    decreases |s| - i
  {
    if i == |s| || IsLineTerminator(s[i]) then i else LineEnd(s, i + 1)
  }

  /** `s.replace` with the expression `#.*` and an empty replacement: the
      first `#` and the rest of its line are removed (the dot stops at line
      terminators). */
  function StripHash(s: string): (r: string)
    ensures FirstIndex(s, "#").None? ==> r == s
    ensures FirstIndex(s, "#").Some? ==> r == s[..FirstIndex(s, "#").value] + s[LineEnd(s, FirstIndex(s, "#").value)..]
  {
    match FirstIndex(s, "#")
    case None => s
    case Some(i) => s[..i] + s[LineEnd(s, i)..]
  }

  /** Text of a single line ending in a derived-copy suffix loses that suffix:
      `id#uri{0}` becomes `id` when `id` holds no `#`. */
  lemma StripHashOfDerivedId(id: string, suffix: string)
    requires FirstIndex(id, "#").None?
    requires forall k :: 0 <= k < |suffix| ==> !IsLineTerminator(suffix[k])
    ensures StripHash(id + "#" + suffix) == id
  {
    var s := id + "#" + suffix;
    FirstIndexIsFirst(id, "#");
    FirstIndexIsFirst(s, "#");
    assert OccursAt(s, "#", |id|);
    forall j: nat | j < |id| ensures !OccursAt(s, "#", j) {
      OccursInPrefix(id, "#" + suffix, "#", j);
      assert s == id + ("#" + suffix);
    }
    assert FirstIndex(s, "#") == Some(|id|);
    forall k | |id| <= k < |s| ensures !IsLineTerminator(s[k]) {
      if k > |id| {
        assert s[k] == suffix[k - |id| - 1];
      }
    }
    assert LineEnd(s, |id|) == |s|;
    assert s[..|id|] == id;
  }

  /** `_getContentId(response)`: the `Content-ID` header (or `''`) without its
      first and last character. */
  function ContentId(r: Response): (id: string)
    ensures var h := Get(r.headers, "Content-ID").GetOr("");
      |h| >= 2 ==> h == h[..1] + id + h[|h| - 1..]
    ensures var h := Get(r.headers, "Content-ID").GetOr("");
      |h| < 2 ==> id == ""
  {
    var h := Get(r.headers, "Content-ID").GetOr("");
    if |h| >= 2 then h[1..|h| - 1] else ""
  }

  /** The Content-ID a response is matched against: derived-copy suffixes removed. */
  function BaseContentId(r: Response): string {
    StripHash(ContentId(r))
  }

  /** The candidate ids listed when a token refers to no response. */
  function Candidates(pool: seq<Response>): (cs: seq<string>)
    ensures |cs| == |pool|
    ensures forall i :: 0 <= i < |pool| ==> cs[i] == BaseContentId(pool[i])
  {
    if |pool| == 0 then [] else [BaseContentId(pool[0])] + Candidates(pool[1..])
  }

  /** The subjects of a token id: the pool responses whose base Content-ID is `id`, in pool order. */
  function Subjects(pool: seq<Response>, id: string): (ss: seq<Response>)
    ensures forall i :: 0 <= i < |ss| ==> ss[i] in pool && BaseContentId(ss[i]) == id
    ensures |ss| == 0 <==> id !in Candidates(pool)
  {
    if |pool| == 0 then []
    else if BaseContentId(pool[0]) == id then [pool[0]] + Subjects(pool[1..], id)
    else
      assert Candidates(pool) == [BaseContentId(pool[0])] + Candidates(pool[1..]);
      Subjects(pool[1..], id)
  }

  /** Indices moved one place to the right. */
  function ShiftUp(idx: seq<nat>): (r: seq<nat>)
    ensures |r| == |idx|
    ensures forall k :: 0 <= k < |idx| ==> r[k] == idx[k] + 1
  {
    seq(|idx|, k requires 0 <= k < |idx| => idx[k] + 1)
  }

  lemma ShiftUpMembers(idx: seq<nat>, i: nat)
    ensures i in ShiftUp(idx) <==> i > 0 && i - 1 in idx
  {
    var r := ShiftUp(idx);
    if i > 0 && i - 1 in idx {
      var k :| 0 <= k < |idx| && idx[k] == i - 1;
      assert r[k] == i;
    }
  }

  /** `idx` lists positions of a sequence of length `n` in increasing order. */
  predicate Increasing(idx: seq<nat>, n: nat) {
    && (forall k :: 0 <= k < |idx| ==> idx[k] < n)
    && (forall k, l :: 0 <= k < l < |idx| ==> idx[k] < idx[l])
  }

  /** One step of an in-order filter: the kept positions of `rest` (the
      tail of `pool`) move one place right, and position 0 joins them when
      the head is kept. */
  lemma FilterIndexStep<T>(pool: seq<T>, kept: seq<T>, rest: seq<T>, idx': seq<nat>, hit: bool)
    returns (idx: seq<nat>)
    requires |pool| > 0 && kept == (if hit then [pool[0]] + rest else rest)
    requires |idx'| == |rest| && Increasing(idx', |pool| - 1)
    requires forall k :: 0 <= k < |idx'| ==> rest[k] == pool[1..][idx'[k]]
    ensures |idx| == |kept| && Increasing(idx, |pool|)
    ensures forall k :: 0 <= k < |idx| ==> kept[k] == pool[idx[k]]
    ensures 0 in idx <==> hit
    ensures forall i :: 0 < i < |pool| ==> (i in idx <==> i - 1 in idx')
  {
    var sh := ShiftUp(idx');
    forall i: nat ensures i in sh <==> i > 0 && i - 1 in idx' {
      ShiftUpMembers(idx', i);
    }
    idx := if hit then [0] + sh else sh;
    forall k | 0 <= k < |idx| ensures kept[k] == pool[idx[k]] {
      if hit && k > 0 {
        assert kept[k] == rest[k - 1];
      }
    }
  }

  /** `pool.filter(...)`: the subjects are the pool responses at the
      positions `idx`, in increasing order, and `idx` holds exactly the
      positions whose base Content-ID is `id`. */
  lemma {:induction false} SubjectsFilter(pool: seq<Response>, id: string) returns (idx: seq<nat>)
    ensures |idx| == |Subjects(pool, id)| && Increasing(idx, |pool|)
    ensures forall k :: 0 <= k < |idx| ==> Subjects(pool, id)[k] == pool[idx[k]]
    ensures forall i :: 0 <= i < |pool| ==> (i in idx <==> BaseContentId(pool[i]) == id)
  {
    if |pool| == 0 {
      idx := [];
    } else {
      var idx' := SubjectsFilter(pool[1..], id);
      idx := FilterIndexStep(pool, Subjects(pool, id), Subjects(pool[1..], id), idx',
                             BaseContentId(pool[0]) == id);
      forall i | 0 < i < |pool| ensures i in idx <==> BaseContentId(pool[i]) == id {
        assert pool[1..][i - 1] == pool[i];
      }
    }
  }

  /** Every pool response whose base Content-ID is `id` is a subject, and
      only those. */
  lemma SubjectsMembers(pool: seq<Response>, id: string)
    ensures forall r :: r in Subjects(pool, id) <==> r in pool && BaseContentId(r) == id
  {
    var idx := SubjectsFilter(pool, id);
    var ss := Subjects(pool, id);
    forall r | r in pool && BaseContentId(r) == id ensures r in ss {
      var i :| 0 <= i < |pool| && pool[i] == r;
      assert i in idx;
      var k :| 0 <= k < |idx| && idx[k] == i;
      assert ss[k] == r;
    }
  }

  /** The `reduce` of `_validateJsonPathReplacements` over `items`, starting from `valid`. */
  function ScalarsFrom(items: seq<Json>, valid: bool): bool {
    if |items| == 0 then valid else ScalarsFrom(items[1..], valid && IsScalar(items[0]))
  }

  /** `_validateJsonPathReplacements(toReplace)`: an array whose `reduce`
      accepts every item is returned, anything else throws. */
  function Validate(toReplace: Json): (r: Result<seq<Json>>)
    ensures r.Ok? ==> toReplace.JArr? && r.value == toReplace.items
    ensures r.Err? ==> r.error == InvalidReplacement(toReplace)
  {
    if toReplace.JArr? && ScalarsFrom(toReplace.items, true)
    then Ok(toReplace.items)
    else Err(InvalidReplacement(toReplace))
  }

  /** The reduce stays true exactly when it starts true and every item is a
      string or a number. */
  lemma {:induction false} ScalarsFromIff(items: seq<Json>, valid: bool)
    ensures ScalarsFrom(items, valid) <==> valid && forall i :: 0 <= i < |items| ==> IsScalar(items[i])
  {
    if |items| > 0 {
      ScalarsFromIff(items[1..], valid && IsScalar(items[0]));
      assert forall i :: 0 < i < |items| ==> items[i] == items[1..][i - 1];
    }
  }

  /** Replacement values are accepted exactly when they form an array of
      strings and numbers; the empty array is accepted. */
  lemma ValidateIff(toReplace: Json)
    ensures Validate(toReplace).Ok? <==>
      toReplace.JArr? && forall i :: 0 <= i < |toReplace.items| ==> IsScalar(toReplace.items[i])
    ensures toReplace == JArr([]) ==> Validate(toReplace) == Ok([])
  {
    if toReplace.JArr? {
      ScalarsFromIff(toReplace.items, true);
    }
  }

  /** Replacement values by subject id and then by token text. */
  type Table = seq<(string, seq<(string, seq<Json>)>)>

  /** `tokenReplacements[id][token]`. */
  function Lookup(tr: Table, id: string, token: string): Option<seq<Json>> {
    match Get(tr, id)
    case None => None
    case Some(inner) => Get(inner, token)
  }

  /** The three assignments at the end of `_addReplacementsForSubject`:
      the values are appended to the token's list, creating the id entry
      and the token entry when they are missing. */
  function AddValues(tr: Table, id: string, token: string, vals: seq<Json>): (r: Table)
    ensures Lookup(r, id, token) == Some(Lookup(tr, id, token).GetOr([]) + vals)
    ensures forall id', token' :: (id', token') != (id, token) ==> Lookup(r, id', token') == Lookup(tr, id', token')
  {
    var inner := Get(tr, id).GetOr([]);
    var prior := Get(inner, token).GetOr([]);
    Set(tr, id, Set(inner, token, prior + vals))
  }

  /** The errors reading a subject's values can throw. */
  predicate IsQueryError(e: Error) {
    e.InvalidJson? || e.PathQueryFailed? || e.InvalidReplacement?
  }

  /** The values the token's path yields on one subject, validated. */
  function QueryValues(m: Match, subject: Response, codec: Codec): (r: Result<seq<Json>>)
    ensures r.Err? ==> IsQueryError(r.error)
  {
    match codec.parse(subject.body)
    case None => Err(InvalidJson(subject.body))
    case Some(parsed) =>
      match codec.query(parsed, m.path)
      case None => Err(PathQueryFailed(m.path))
      case Some(found) => Validate(found)
  }

  /** `_addReplacementsForSubject(match, subject, providedId, tokenReplacements)`. */
  function AddReplacementsForSubject(m: Match, subject: Response, id: string, tr: Table, codec: Codec): (r: Result<Table>)
    ensures r.Ok? <==> QueryValues(m, subject, codec).Ok?
    ensures r.Ok? ==> r.value == AddValues(tr, id, m.text, QueryValues(m, subject, codec).value)
  {
    var vals :- QueryValues(m, subject, codec);
    Ok(AddValues(tr, id, m.text, vals))
  }

  /** The values of a token over all its subjects, concatenated in pool order. */
  function QueryAll(m: Match, subjects: seq<Response>, codec: Codec): (r: Result<seq<Json>>)
    ensures r.Err? ==> IsQueryError(r.error)
  {
    if |subjects| == 0 then Ok([])
    else
      var first :- QueryValues(m, subjects[0], codec);
      var rest :- QueryAll(m, subjects[1..], codec);
      Ok(first + rest)
  }

  /** `subjects.forEach(subject => this._addReplacementsForSubject(...))`. */
  function AddForSubjects(m: Match, subjects: seq<Response>, id: string, tr: Table, codec: Codec): Result<Table> {
    if |subjects| == 0 then Ok(tr)
    else
      var tr' :- AddReplacementsForSubject(m, subjects[0], id, tr, codec);
      AddForSubjects(m, subjects[1..], id, tr', codec)
  }

  /** Adding over all subjects fails exactly when a subject's values cannot
      be had, with that error. */
  lemma {:induction false} AddForSubjectsFails(m: Match, subjects: seq<Response>, id: string, tr: Table, codec: Codec)
    ensures AddForSubjects(m, subjects, id, tr, codec).Ok? <==> QueryAll(m, subjects, codec).Ok?
    ensures AddForSubjects(m, subjects, id, tr, codec).Err? ==>
      AddForSubjects(m, subjects, id, tr, codec).error == QueryAll(m, subjects, codec).error
  {
    if |subjects| > 0 {
      var q := QueryValues(m, subjects[0], codec);
      if q.Ok? {
        AddForSubjectsFails(m, subjects[1..], id, AddValues(tr, id, m.text, q.value), codec);
      }
    }
  }

  /** Adding over a non-empty list of subjects appends the concatenated
      values to the token's cell and leaves every other cell alone. */
  lemma {:induction false} AddForSubjectsSpec(m: Match, subjects: seq<Response>, id: string, tr: Table, codec: Codec)
    requires |subjects| > 0
    requires AddForSubjects(m, subjects, id, tr, codec).Ok?
    ensures QueryAll(m, subjects, codec).Ok?
    ensures var r := AddForSubjects(m, subjects, id, tr, codec).value;
      Lookup(r, id, m.text) == Some(Lookup(tr, id, m.text).GetOr([]) + QueryAll(m, subjects, codec).value)
    ensures var r := AddForSubjects(m, subjects, id, tr, codec).value;
      forall id', token' :: (id', token') != (id, m.text) ==> Lookup(r, id', token') == Lookup(tr, id', token')
  {
    var tr' := AddForSubjectsStep(m, subjects, id, tr, codec);
    var q := QueryValues(m, subjects[0], codec).value;
    var prior := Lookup(tr, id, m.text).GetOr([]);
    if |subjects| == 1 {
      assert AddForSubjects(m, subjects[1..], id, tr', codec) == Ok(tr');
      assert prior + q == prior + (q + []);
    } else {
      AddForSubjectsSpec(m, subjects[1..], id, tr', codec);
      var r := AddForSubjects(m, subjects, id, tr, codec).value;
      AddTwice(tr, tr', r, id, m.text, q, QueryAll(m, subjects[1..], codec).value);
    }
  }

  /** Two appends to one cell, each leaving every other cell alone, append
      both lists in order. */
  lemma AddTwice(tr: Table, tr': Table, r: Table, id: string, token: string, q: seq<Json>, rest: seq<Json>)
    requires Lookup(tr', id, token) == Some(Lookup(tr, id, token).GetOr([]) + q)
    requires forall id', token' :: (id', token') != (id, token) ==> Lookup(tr', id', token') == Lookup(tr, id', token')
    requires Lookup(r, id, token) == Some(Lookup(tr', id, token).GetOr([]) + rest)
    requires forall id', token' :: (id', token') != (id, token) ==> Lookup(r, id', token') == Lookup(tr', id', token')
    ensures Lookup(r, id, token) == Some(Lookup(tr, id, token).GetOr([]) + (q + rest))
    ensures forall id', token' :: (id', token') != (id, token) ==> Lookup(r, id', token') == Lookup(tr, id', token')
  {
    var prior := Lookup(tr, id, token).GetOr([]);
    assert prior + q + rest == prior + (q + rest);
  }

  /** The first subject of a successful add: its values were read and added
      to the table, and the rest of the subjects go on from there. */
  lemma AddForSubjectsStep(m: Match, subjects: seq<Response>, id: string, tr: Table, codec: Codec) returns (tr': Table)
    requires |subjects| > 0
    requires AddForSubjects(m, subjects, id, tr, codec).Ok?
    ensures QueryValues(m, subjects[0], codec).Ok?
    ensures tr' == AddValues(tr, id, m.text, QueryValues(m, subjects[0], codec).value)
    ensures AddForSubjects(m, subjects, id, tr, codec) == AddForSubjects(m, subjects[1..], id, tr', codec)
    ensures QueryAll(m, subjects[1..], codec).Ok?
    ensures QueryAll(m, subjects, codec) == Ok(QueryValues(m, subjects[0], codec).value + QueryAll(m, subjects[1..], codec).value)
  {
    AddForSubjectsFails(m, subjects, id, tr, codec);
    tr' := AddValues(tr, id, m.text, QueryValues(m, subjects[0], codec).value);
    AddForSubjectsFails(m, subjects[1..], id, tr', codec);
  }

  /** The id a match refers to. */
  function IdOf(m: Match): string {
    StripBodySuffix(m.subject)
  }

  /** The `reduce` of `_extractTokenReplacements` over the deduplicated matches. */
  function ExtractFrom(ms: seq<Match>, pool: seq<Response>, tr: Table, codec: Codec): Result<Table> {
    if |ms| == 0 then Ok(tr)
    else
      var id := IdOf(ms[0]);
      var subjects := Subjects(pool, id);
      if |subjects| == 0 then Err(UnresolvableReference(id, Candidates(pool)))
      else
        var tr' :- AddForSubjects(ms[0], subjects, id, tr, codec);
        ExtractFrom(ms[1..], pool, tr', codec)
  }

  /** The text the token finder scans: the URI, or the serialized body
      (an absent body stringifies to `undefined`, which `exec` reads as the
      text "undefined"). */
  function SubjectText(sub: Subrequest, loc: Location, codec: Codec): string {
    match loc
    case Uri => sub.uri
    case Body =>
      match sub.body
      case None => "undefined"
      case Some(b) => codec.stringify(b)
  }

  /** `_extractTokenReplacements(subrequest, tokenLocation, pool)`. */
  function ExtractTokenReplacements(sub: Subrequest, loc: Location, pool: seq<Response>, codec: Codec): Result<Table> {
    ExtractFrom(UniqByText(FindTokens(SubjectText(sub, loc, codec))), pool, [], codec)
  }

  /** One step of the reduce, for a first match whose subjects all yield values. */
  lemma ExtractFromStep(ms: seq<Match>, pool: seq<Response>, tr: Table, codec: Codec)
    requires |ms| > 0
    requires |Subjects(pool, IdOf(ms[0]))| > 0
    requires AddForSubjects(ms[0], Subjects(pool, IdOf(ms[0])), IdOf(ms[0]), tr, codec).Ok?
    ensures ExtractFrom(ms, pool, tr, codec)
      == ExtractFrom(ms[1..], pool, AddForSubjects(ms[0], Subjects(pool, IdOf(ms[0])), IdOf(ms[0]), tr, codec).value, codec)
  {
  }

  /** No match of `ms` has the cell `(id, token)`. */
  predicate NotACellOf(ms: seq<Match>, id: string, token: string) {
    forall i :: 0 <= i < |ms| ==> (id, token) != (IdOf(ms[i]), ms[i].text)
  }

  /** The reduce changes only the cells of the matches it goes through. */
  lemma {:induction false} ExtractFromFrame(ms: seq<Match>, pool: seq<Response>, tr: Table, codec: Codec, id: string, token: string)
    requires ExtractFrom(ms, pool, tr, codec).Ok?
    requires NotACellOf(ms, id, token)
    ensures Lookup(ExtractFrom(ms, pool, tr, codec).value, id, token) == Lookup(tr, id, token)
  {
    if |ms| > 0 {
      var m := ms[0];
      var subjects := Subjects(pool, IdOf(m));
      var tr' := AddForSubjects(m, subjects, IdOf(m), tr, codec).value;
      AddForSubjectsSpec(m, subjects, IdOf(m), tr, codec);
      assert NotACellOf(ms[1..], id, token) by {
        forall j | 0 <= j < |ms[1..]| ensures (id, token) != (IdOf(ms[1..][j]), ms[1..][j].text) {
          assert ms[1..][j] == ms[j + 1];
        }
      }
      ExtractFromFrame(ms[1..], pool, tr', codec, id, token);
    }
  }

  /** The values of a token over the responses its id names. */
  function TokenValues(m: Match, pool: seq<Response>, codec: Codec): Result<seq<Json>> {
    QueryAll(m, Subjects(pool, IdOf(m)), codec)
  }

  /** The cell of `m` in `tr` holds the values of its subjects, and it has some. */
  predicate Filled(tr: Table, m: Match, pool: seq<Response>, codec: Codec) {
    && |Subjects(pool, IdOf(m))| > 0
    && TokenValues(m, pool, codec).Ok?
    && Lookup(tr, IdOf(m), m.text) == Some(TokenValues(m, pool, codec).value)
  }

  /** After the reduce, the cell of a match `m` of `ms` holds the values of
      its subjects, in pool order, when it was empty before. */
  lemma {:induction false} ExtractFromFillsAt(ms: seq<Match>, pool: seq<Response>, tr: Table, codec: Codec, m: Match, r: Table)
    requires ExtractFrom(ms, pool, tr, codec) == Ok(r)
    requires DistinctTexts(ms)
    requires m in ms && Lookup(tr, IdOf(m), m.text).None?
    ensures Filled(r, m, pool, codec)
  {
    if m == ms[0] {
      ExtractFromFillsHead(ms, pool, tr, codec, r);
    } else {
      var tr' := FillsAtStep(ms, pool, tr, codec, m);
      ExtractFromFillsAt(ms[1..], pool, tr', codec, m, r);
    }
  }

  /** Going from `ms` to its tail, with the table `tr'` after the first
      step, keeps the texts distinct, keeps a match `m` other than the
      first and keeps its cell empty. */
  lemma FillsAtStep(ms: seq<Match>, pool: seq<Response>, tr: Table, codec: Codec, m: Match) returns (tr': Table)
    requires ExtractFrom(ms, pool, tr, codec).Ok?
    requires DistinctTexts(ms)
    requires m in ms && m != ms[0] && Lookup(tr, IdOf(m), m.text).None?
    ensures ExtractFrom(ms[1..], pool, tr', codec) == ExtractFrom(ms, pool, tr, codec)
    ensures DistinctTexts(ms[1..]) && m in ms[1..]
    ensures Lookup(tr', IdOf(m), m.text).None?
  {
    var head := ms[0];
    var id := IdOf(head);
    var subjects := Subjects(pool, id);
    ExtractFromTail(ms, pool, tr, codec);
    tr' := AddForSubjects(head, subjects, id, tr, codec).value;
    AddForSubjectsSpec(head, subjects, id, tr, codec);
    DistinctTail(ms);
    var i :| 0 <= i < |ms| && ms[i] == m;
    assert ms[1..][i - 1] == m;
    assert m.text != head.text;
  }

  /** A reduce that succeeds took its first step and went on with the rest. */
  lemma ExtractFromTail(ms: seq<Match>, pool: seq<Response>, tr: Table, codec: Codec)
    requires |ms| > 0 && ExtractFrom(ms, pool, tr, codec).Ok?
    ensures |Subjects(pool, IdOf(ms[0]))| > 0
    ensures AddForSubjects(ms[0], Subjects(pool, IdOf(ms[0])), IdOf(ms[0]), tr, codec).Ok?
    ensures ExtractFrom(ms[1..], pool, AddForSubjects(ms[0], Subjects(pool, IdOf(ms[0])), IdOf(ms[0]), tr, codec).value, codec)
      == ExtractFrom(ms, pool, tr, codec)
  {
    ExtractFromHead(ms, pool, tr, codec);
  }

  lemma DistinctTail(ms: seq<Match>)
    requires |ms| > 0 && DistinctTexts(ms)
    ensures DistinctTexts(ms[1..])
  {
    var tail := ms[1..];
    forall j, k | 0 <= j < k < |tail| ensures tail[j].text != tail[k].text {
      assert tail[j] == ms[j + 1] && tail[k] == ms[k + 1];
    }
  }

  lemma ExtractFromFillsHead(ms: seq<Match>, pool: seq<Response>, tr: Table, codec: Codec, r: Table)
    requires ExtractFrom(ms, pool, tr, codec) == Ok(r)
    requires DistinctTexts(ms)
    requires |ms| > 0 && Lookup(tr, IdOf(ms[0]), ms[0].text).None?
    ensures Filled(r, ms[0], pool, codec)
  {
    var m := ms[0];
    var id := IdOf(m);
    var subjects := Subjects(pool, id);
    var tr' := AddForSubjects(m, subjects, id, tr, codec).value;
    AddForSubjectsSpec(m, subjects, id, tr, codec);
    ExtractFromStep(ms, pool, tr, codec);
    var tail := ms[1..];
    assert NotACellOf(tail, id, m.text) by {
      forall j | 0 <= j < |tail| ensures (id, m.text) != (IdOf(tail[j]), tail[j].text) {
        assert tail[j] == ms[j + 1];
      }
    }
    ExtractFromFrame(tail, pool, tr', codec, id, m.text);
    var vals := QueryAll(m, subjects, codec).value;
    assert Lookup(tr', id, m.text) == Some([] + vals);
    assert [] + vals == vals;
  }

  /** After the reduce from an empty table, the cell of every match holds
      the values of its subjects, in pool order; each match had subjects and values. */
  lemma ExtractFromFills(ms: seq<Match>, pool: seq<Response>, tr: Table, codec: Codec)
    requires ExtractFrom(ms, pool, tr, codec).Ok?
    requires DistinctTexts(ms)
    requires forall i :: 0 <= i < |ms| ==> Lookup(tr, IdOf(ms[i]), ms[i].text).None?
    ensures forall i :: 0 <= i < |ms| ==> Filled(ExtractFrom(ms, pool, tr, codec).value, ms[i], pool, codec)
  {
    forall i | 0 <= i < |ms| ensures Filled(ExtractFrom(ms, pool, tr, codec).value, ms[i], pool, codec) {
      ExtractFromFillsAt(ms, pool, tr, codec, ms[i], ExtractFrom(ms, pool, tr, codec).value);
    }
  }

  /** The first step of the reduce: it fails for a match without subjects,
      fails with a query error when a subject's values cannot be read, and
      otherwise goes on with the rest. */
  lemma ExtractFromHead(ms: seq<Match>, pool: seq<Response>, tr: Table, codec: Codec)
    requires |ms| > 0
    ensures var id := IdOf(ms[0]);
      |Subjects(pool, id)| == 0 ==> ExtractFrom(ms, pool, tr, codec) == Err(UnresolvableReference(id, Candidates(pool)))
    ensures var id := IdOf(ms[0]);
      var a := AddForSubjects(ms[0], Subjects(pool, id), id, tr, codec);
      |Subjects(pool, id)| > 0 && a.Err? ==> ExtractFrom(ms, pool, tr, codec) == Err(a.error) && IsQueryError(a.error)
    ensures var id := IdOf(ms[0]);
      var a := AddForSubjects(ms[0], Subjects(pool, id), id, tr, codec);
      |Subjects(pool, id)| > 0 && a.Ok? ==> ExtractFrom(ms, pool, tr, codec) == ExtractFrom(ms[1..], pool, a.value, codec)
  {
    var id := IdOf(ms[0]);
    AddForSubjectsFails(ms[0], Subjects(pool, id), id, tr, codec);
  }

  /** A match without subjects makes the reduce fail with the pool's candidate ids. */
  lemma {:induction false} ExtractFromUnresolvable(ms: seq<Match>, pool: seq<Response>, tr: Table, codec: Codec)
    requires ExtractFrom(ms, pool, tr, codec).Err?
    requires ExtractFrom(ms, pool, tr, codec).error.UnresolvableReference?
    ensures var e := ExtractFrom(ms, pool, tr, codec).error;
      e.candidates == Candidates(pool) && Subjects(pool, e.requestId) == []
      && exists i :: 0 <= i < |ms| && IdOf(ms[i]) == e.requestId
  {
    ExtractFromHead(ms, pool, tr, codec);
    var id := IdOf(ms[0]);
    var subjects := Subjects(pool, id);
    var e := ExtractFrom(ms, pool, tr, codec).error;
    if |subjects| > 0 {
      var a := AddForSubjects(ms[0], subjects, id, tr, codec);
      ExtractFromUnresolvable(ms[1..], pool, a.value, codec);
      var i :| 0 <= i < |ms[1..]| && IdOf(ms[1..][i]) == e.requestId;
      assert ms[i + 1] == ms[1..][i];
    }
  }

  /** The replacements of a subrequest member: for each distinct token, the
      cell of its id and text holds the values its path yields on every
      response that id names, concatenated in pool order; the result has no
      other cells; a token whose id names no response fails with the pool's
      candidate ids. */
  lemma ExtractTokenReplacementsSpec(sub: Subrequest, loc: Location, pool: seq<Response>, codec: Codec)
    ensures var ms := UniqByText(FindTokens(SubjectText(sub, loc, codec)));
      var r := ExtractTokenReplacements(sub, loc, pool, codec);
      r.Ok? ==>
        && (forall i :: 0 <= i < |ms| ==> Filled(r.value, ms[i], pool, codec))
        && (forall id, token :: NotACellOf(ms, id, token) ==> Lookup(r.value, id, token).None?)
    ensures var ms := UniqByText(FindTokens(SubjectText(sub, loc, codec)));
      var r := ExtractTokenReplacements(sub, loc, pool, codec);
      r.Err? && r.error.UnresolvableReference? ==>
        r.error.candidates == Candidates(pool) && Subjects(pool, r.error.requestId) == []
        && exists i :: 0 <= i < |ms| && IdOf(ms[i]) == r.error.requestId
  {
    var ms := UniqByText(FindTokens(SubjectText(sub, loc, codec)));
    var r := ExtractTokenReplacements(sub, loc, pool, codec);
    UniqByTextSpec(FindTokens(SubjectText(sub, loc, codec)));
    if r.Ok? {
      ExtractFromFills(ms, pool, [], codec);
      forall id, token | NotACellOf(ms, id, token) ensures Lookup(r.value, id, token).None? {
        ExtractFromFrame(ms, pool, [], codec, id, token);
      }
    } else if r.error.UnresolvableReference? {
      ExtractFromUnresolvable(ms, pool, [], codec);
    }
  }

  /** A text without tokens needs no replacements. */
  lemma NoTokensNoReplacements(sub: Subrequest, loc: Location, pool: seq<Response>, codec: Codec)
    requires FindTokens(SubjectText(sub, loc, codec)) == []
    ensures ExtractTokenReplacements(sub, loc, pool, codec) == Ok([])
  {
  }

  /** The replacements are empty exactly when the text holds no token. */
  lemma ExtractEmptyIffNoTokens(sub: Subrequest, loc: Location, pool: seq<Response>, codec: Codec)
    requires ExtractTokenReplacements(sub, loc, pool, codec).Ok?
    ensures |ExtractTokenReplacements(sub, loc, pool, codec).value| == 0 <==> FindTokens(SubjectText(sub, loc, codec)) == []
  {
    var found := FindTokens(SubjectText(sub, loc, codec));
    if found == [] {
      NoTokensNoReplacements(sub, loc, pool, codec);
    } else {
      var ms := UniqByText(found);
      UniqOfNone(found, []);
      assert ms != [];
      ExtractTokenReplacementsSpec(sub, loc, pool, codec);
      var r := ExtractTokenReplacements(sub, loc, pool, codec).value;
      assert Filled(r, ms[0], pool, codec);
      assert Get(r, IdOf(ms[0])).Some?;
    }
  }

  /** Every entry of a table holds at least one token. */
  predicate EntriesNonEmpty(tr: Table) {
    forall i :: 0 <= i < |tr| ==> |tr[i].1| > 0
  }

  lemma {:induction false} SetEntries<V>(m: seq<(string, V)>, k: string, v: V)
    ensures forall i :: 0 <= i < |Set(m, k, v)| ==> Set(m, k, v)[i] == (k, v) || Set(m, k, v)[i] in m
    ensures |Set(m, k, v)| > 0
  {
    if |m| > 0 && m[0].0 != k {
      SetEntries(m[1..], k, v);
      var r := Set(m, k, v);
      assert r[1..] == Set(m[1..], k, v);
      forall i | 1 <= i < |r| ensures r[i] == (k, v) || r[i] in m {
        assert r[i] == Set(m[1..], k, v)[i - 1];
      }
    }
  }

  lemma AddValuesKeepsEntriesNonEmpty(tr: Table, id: string, token: string, vals: seq<Json>)
    requires EntriesNonEmpty(tr)
    ensures EntriesNonEmpty(AddValues(tr, id, token, vals))
  {
    var inner := Get(tr, id).GetOr([]);
    var prior := Get(inner, token).GetOr([]);
    SetEntries(inner, token, prior + vals);
    SetEntries(tr, id, Set(inner, token, prior + vals));
  }

  lemma {:induction false} ExtractFromKeepsEntriesNonEmpty(ms: seq<Match>, pool: seq<Response>, tr: Table, codec: Codec)
    requires EntriesNonEmpty(tr)
    ensures ExtractFrom(ms, pool, tr, codec).Ok? ==> EntriesNonEmpty(ExtractFrom(ms, pool, tr, codec).value)
  {
    if |ms| > 0 {
      var id := IdOf(ms[0]);
      var subjects := Subjects(pool, id);
      if |subjects| > 0 {
        AddForSubjectsKeepsEntriesNonEmpty(ms[0], subjects, id, tr, codec);
        var a := AddForSubjects(ms[0], subjects, id, tr, codec);
        if a.Ok? {
          ExtractFromKeepsEntriesNonEmpty(ms[1..], pool, a.value, codec);
        }
      }
    }
  }

  lemma {:induction false} AddForSubjectsKeepsEntriesNonEmpty(m: Match, subjects: seq<Response>, id: string, tr: Table, codec: Codec)
    requires EntriesNonEmpty(tr)
    ensures AddForSubjects(m, subjects, id, tr, codec).Ok? ==> EntriesNonEmpty(AddForSubjects(m, subjects, id, tr, codec).value)
  {
    if |subjects| > 0 {
      var q := QueryValues(m, subjects[0], codec);
      if q.Ok? {
        AddValuesKeepsEntriesNonEmpty(tr, id, m.text, q.value);
        AddForSubjectsKeepsEntriesNonEmpty(m, subjects[1..], id, AddValues(tr, id, m.text, q.value), codec);
      }
    }
  }
  /** The ids the matches refer to, in order. */
  function IdsOf(ms: seq<Match>): (ids: seq<string>)
    ensures |ids| == |ms|
    ensures forall i :: 0 <= i < |ms| ==> ids[i] == IdOf(ms[i])
  {
    if |ms| == 0 then [] else [IdOf(ms[0])] + IdsOf(ms[1..])
  }

  /** The texts of the matches that refer to `id`, in order. */
  function TextsWithId(ms: seq<Match>, id: string): seq<string> {
    if |ms| == 0 then []
    else (if IdOf(ms[0]) == id then [ms[0].text] else []) + TextsWithId(ms[1..], id)
  }

  lemma {:induction false} TextsWithIdMembers(ms: seq<Match>, id: string, t: string)
    ensures t in TextsWithId(ms, id) <==> exists i :: 0 <= i < |ms| && IdOf(ms[i]) == id && ms[i].text == t
  {
    if |ms| > 0 {
      TextsWithIdMembers(ms[1..], id, t);
      if exists i :: 0 <= i < |ms| && IdOf(ms[i]) == id && ms[i].text == t {
        var i :| 0 <= i < |ms| && IdOf(ms[i]) == id && ms[i].text == t;
        if i > 0 {
          assert ms[1..][i - 1] == ms[i];
        }
      }
    }
  }

  /** The tokens of `tokenReplacements[id]`, in insertion order. */
  function InnerKeys(tr: Table, id: string): seq<string> {
    Keys(Get(tr, id).GetOr([]))
  }

  /** Adding values creates the id entry at the end when it is new and the
      token entry at the end of the id's entry when it is new; no other
      key order changes. */
  lemma AddValuesKeys(tr: Table, id: string, token: string, vals: seq<Json>)
    ensures Keys(AddValues(tr, id, token, vals)) == WithKey(Keys(tr), id)
    ensures InnerKeys(AddValues(tr, id, token, vals), id) == WithKey(InnerKeys(tr, id), token)
    ensures forall id' :: id' != id ==> InnerKeys(AddValues(tr, id, token, vals), id') == InnerKeys(tr, id')
  {
    var inner := Get(tr, id).GetOr([]);
    var prior := Get(inner, token).GetOr([]);
    SetKeys(tr, id, Set(inner, token, prior + vals));
    SetKeys(inner, token, prior + vals);
  }

  /** Adding over a token's subjects touches the key order as one add does. */
  lemma {:induction false} AddForSubjectsKeys(m: Match, subjects: seq<Response>, id: string, tr: Table, codec: Codec)
    requires |subjects| > 0 && AddForSubjects(m, subjects, id, tr, codec).Ok?
    ensures Keys(AddForSubjects(m, subjects, id, tr, codec).value) == WithKey(Keys(tr), id)
    ensures InnerKeys(AddForSubjects(m, subjects, id, tr, codec).value, id) == WithKey(InnerKeys(tr, id), m.text)
    ensures forall id' :: id' != id ==>
      InnerKeys(AddForSubjects(m, subjects, id, tr, codec).value, id') == InnerKeys(tr, id')
  {
    var tr' := AddForSubjectsStep(m, subjects, id, tr, codec);
    AddValuesKeys(tr, id, m.text, QueryValues(m, subjects[0], codec).value);
    if |subjects| == 1 {
      assert AddForSubjects(m, subjects[1..], id, tr', codec) == Ok(tr');
    } else {
      AddForSubjectsKeys(m, subjects[1..], id, tr', codec);
    }
  }

  /** The reduce keeps the ids already in the table in place and adds the
      new ids in the order the matches first refer to them. */
  lemma {:induction false} ExtractFromKeys(ms: seq<Match>, pool: seq<Response>, tr: Table, codec: Codec)
    requires ExtractFrom(ms, pool, tr, codec).Ok?
    ensures Keys(ExtractFrom(ms, pool, tr, codec).value) == Keys(tr) + FirstOccurrences(Keys(tr), IdsOf(ms))
  {
    if |ms| > 0 {
      var id := IdOf(ms[0]);
      ExtractFromTail(ms, pool, tr, codec);
      var tr' := AddForSubjects(ms[0], Subjects(pool, id), id, tr, codec).value;
      AddForSubjectsKeys(ms[0], Subjects(pool, id), id, tr, codec);
      ExtractFromKeys(ms[1..], pool, tr', codec);
      assert IdsOf(ms) == [id] + IdsOf(ms[1..]);
      WithKeyStep(Keys(tr), id, IdsOf(ms[1..]), Keys(ExtractFrom(ms, pool, tr, codec).value));
    }
  }

  /** Within one id, the reduce keeps the tokens already there in place and
      adds the new tokens in the order of the matches that refer to it. */
  lemma {:induction false} ExtractFromInnerKeys(ms: seq<Match>, pool: seq<Response>, tr: Table, codec: Codec, id: string)
    requires ExtractFrom(ms, pool, tr, codec).Ok?
    ensures InnerKeys(ExtractFrom(ms, pool, tr, codec).value, id)
      == InnerKeys(tr, id) + FirstOccurrences(InnerKeys(tr, id), TextsWithId(ms, id))
  {
    if |ms| > 0 {
      var id0 := IdOf(ms[0]);
      ExtractFromTail(ms, pool, tr, codec);
      var tr' := AddForSubjects(ms[0], Subjects(pool, id0), id0, tr, codec).value;
      AddForSubjectsKeys(ms[0], Subjects(pool, id0), id0, tr, codec);
      ExtractFromInnerKeys(ms[1..], pool, tr', codec, id);
      var after := InnerKeys(ExtractFrom(ms, pool, tr, codec).value, id);
      if id0 == id {
        assert TextsWithId(ms, id) == [ms[0].text] + TextsWithId(ms[1..], id);
        WithKeyStep(InnerKeys(tr, id), ms[0].text, TextsWithId(ms[1..], id), after);
      } else {
        assert TextsWithId(ms, id) == TextsWithId(ms[1..], id);
      }
    }
  }

  /** The key order of the table `_extractTokenReplacements` returns: the ids
      in the order the tokens first refer to them, and under each id its
      tokens in the order they first appear. */
  lemma ExtractTokenReplacementsOrder(sub: Subrequest, loc: Location, pool: seq<Response>, codec: Codec)
    ensures var ms := UniqByText(FindTokens(SubjectText(sub, loc, codec)));
      var r := ExtractTokenReplacements(sub, loc, pool, codec);
      r.Ok? ==>
        && Keys(r.value) == FirstOccurrences([], IdsOf(ms))
        && forall id :: InnerKeys(r.value, id) == FirstOccurrences([], TextsWithId(ms, id))
  {
    var ms := UniqByText(FindTokens(SubjectText(sub, loc, codec)));
    var r := ExtractTokenReplacements(sub, loc, pool, codec);
    var empty: Table := [];
    if r.Ok? {
      ExtractFromKeys(ms, pool, empty, codec);
      forall id ensures InnerKeys(r.value, id) == FirstOccurrences([], TextsWithId(ms, id)) {
        ExtractFromInnerKeys(ms, pool, empty, codec, id);
        assert InnerKeys(empty, id) == [];
      }
    }
  }
}
