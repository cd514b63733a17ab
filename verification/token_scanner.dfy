/** The token finder of the JSON path replacer. A token is written
    `{{subject@path}}`; the finder is a global, greedy regular expression
    `\{\{([^{]*)@([^{]*)\}\}`, stated here as an explicit scanner: a match at
    `p` needs `{{` there, both groups stay inside the run of characters other
    than `{` that follows, and greediness makes the closing `}}` the last one in
    that run and the `@` the last one before it. */
module TokenScanner {
  import opened Wrappers
  import opened Text

  /** One match: the full token text and its two groups. `end` is the index
      just past the match in the scanned string. */
  datatype Match = Match(text: string, subject: string, path: string, end: nat)

  predicate NoOpenBrace(s: string) {
    forall i :: 0 <= i < |s| ==> s[i] != '{'
  }

  /** The end of the run of characters other than `{` that starts at `q`. */
  function RunEnd(s: string, q: nat): (e: nat)
    requires q <= |s|
    ensures q <= e <= |s|
    ensures forall i :: q <= i < e ==> s[i] != '{'
    ensures e < |s| ==> s[e] == '{'
    decreases |s| - q
  {
    if q == |s| || s[q] == '{' then q else RunEnd(s, q + 1)
  }

  /** The last index `b` with `q <= b` and `b + 2 <= e` where `}}` starts. */
  function LastClose(s: string, q: nat, e: nat): (r: Option<nat>)
    requires q <= e <= |s|
    ensures r.Some? ==> q <= r.value && r.value + 2 <= e && OccursAt(s, "}}", r.value)
    decreases e
  {
    if e < q + 2 then None
    else if OccursAt(s, "}}", e - 2) then Some(e - 2)
    else LastClose(s, q, e - 1)
  }

  /** Greediness of the closing `}}`: no `}}` starts after the one found,
      and none at all when none is found. */
  lemma {:induction false} LastCloseIsLast(s: string, q: nat, e: nat)
    requires q <= e <= |s|
    ensures LastClose(s, q, e).Some? ==> forall b :: LastClose(s, q, e).value < b && b + 2 <= e ==> !OccursAt(s, "}}", b)
    ensures LastClose(s, q, e).None? ==> forall b :: q <= b && b + 2 <= e ==> !OccursAt(s, "}}", b)
    decreases e
  {
    if e >= q + 2 && !OccursAt(s, "}}", e - 2) {
      LastCloseIsLast(s, q, e - 1);
    }
  }

  /** The last index `a` with `q <= a < b` that holds `@`. */
  function LastAt(s: string, q: nat, b: nat): (r: Option<nat>)
    requires q <= b <= |s|
    ensures r.Some? ==> q <= r.value < b && s[r.value] == '@'
    decreases b
  {
    if b == q then None
    else if s[b - 1] == '@' then Some(b - 1)
    else LastAt(s, q, b - 1)
  }

  /** Greediness of the first group: no `@` follows the one found before
      `b`, and there is none at all when none is found. */
  lemma {:induction false} LastAtIsLast(s: string, q: nat, b: nat)
    requires q <= b <= |s|
    ensures LastAt(s, q, b).Some? ==> forall a :: LastAt(s, q, b).value < a < b ==> s[a] != '@'
    ensures LastAt(s, q, b).None? ==> forall a :: q <= a < b ==> s[a] != '@'
    decreases b
  {
    if b > q && s[b - 1] != '@' {
      LastAtIsLast(s, q, b - 1);
    }
  }

  /** The text between an opening `{{` at `p` and a closing `}}` at `b`,
      with an `@` at `a` between them, is a token of that shape. */
  lemma TokenText(s: string, p: nat, a: nat, b: nat)
    requires p + 2 <= a < b && b + 2 <= |s|
    requires OccursAt(s, "{{", p) && s[a] == '@' && OccursAt(s, "}}", b)
    ensures s[p..b + 2] == "{{" + s[p + 2..a] + "@" + s[a + 1..b] + "}}"
  {
    assert s[p..b + 2] == s[p..p + 2] + s[p + 2..a] + [s[a]] + s[a + 1..b] + s[b..b + 2];
  }

  /** The match the regular expression finds when it is tried at index `p`. */
  function MatchAt(s: string, p: nat): (r: Option<Match>)
    requires p <= |s|
    ensures r.Some? ==> p < r.value.end <= |s| && s[p..r.value.end] == r.value.text
    ensures r.Some? ==> r.value.text == "{{" + r.value.subject + "@" + r.value.path + "}}"
    ensures r.Some? ==> NoOpenBrace(r.value.subject) && NoOpenBrace(r.value.path)
  {
    if !OccursAt(s, "{{", p) then None
    else
      var q := p + 2;
      var e := RunEnd(s, q);
      match LastClose(s, q, e)
      case None => None
      case Some(b) =>
        match LastAt(s, q, b)
        case None => None
        case Some(a) =>
          TokenText(s, p, a, b);
          Some(Match(s[p..b + 2], s[q..a], s[a + 1..b], b + 2))
  }

  /** One call of `exec` with `lastIndex` at `from`: the first match found
      trying `from`, `from + 1`, ... in turn. */
  function NextMatch(s: string, from: nat): (r: Option<(nat, Match)>)
    requires from <= |s|
    ensures r.Some? ==> from <= r.value.0 <= |s| && MatchAt(s, r.value.0) == Some(r.value.1)
    decreases |s| - from
  {
    match MatchAt(s, from)
    case Some(m) => Some((from, m))
    case None => if from == |s| then None else NextMatch(s, from + 1)
  }

  /** `exec` finds the first match: the expression matches at no index
      before the one it returns, and at no index at all when it returns null. */
  lemma {:induction false} NextMatchIsFirst(s: string, from: nat)
    requires from <= |s|
    ensures NextMatch(s, from).Some? ==> forall p :: from <= p < NextMatch(s, from).value.0 ==> MatchAt(s, p).None?
    ensures NextMatch(s, from).None? ==> forall p :: from <= p <= |s| ==> MatchAt(s, p).None?
    decreases |s| - from
  {
    var here := MatchAt(s, from);
    if here.None? && from < |s| {
      var r := NextMatch(s, from + 1);
      assert NextMatch(s, from) == r;
      NextMatchIsFirst(s, from + 1);
      if r.Some? {
        forall p | from <= p < r.value.0 ensures MatchAt(s, p).None? {
          if p == from { assert MatchAt(s, p) == here; }
        }
      } else {
        forall p | from <= p <= |s| ensures MatchAt(s, p).None? {
          if p == from { assert MatchAt(s, p) == here; }
        }
      }
    }
  }

  /** The matches `exec` returns one after the other from `from` on. */
  function TokensFrom(s: string, from: nat): seq<Match>
    requires from <= |s|
    decreases |s| - from
  {
    match NextMatch(s, from)
    case None => []
    case Some((_, m)) => [m] + TokensFrom(s, m.end)
  }

  /** `_findTokens(subject)`. */
  function FindTokens(s: string): seq<Match> {
    TokensFrom(s, 0)
  }

  /** A token-shaped match: the text of `m` ends at `m.end` in `s`, after `from`. */
  predicate IsTokenAt(s: string, from: nat, m: Match) {
    from < m.end <= |s| && |m.text| <= m.end && s[m.end - |m.text|..m.end] == m.text
    && m.text == "{{" + m.subject + "@" + m.path + "}}"
    && NoOpenBrace(m.subject) && NoOpenBrace(m.path)
  }

  /** Every match found is a token-shaped piece of the scanned string. */
  lemma {:induction false} TokensAreTokens(s: string, from: nat)
    requires from <= |s|
    ensures forall k :: 0 <= k < |TokensFrom(s, from)| ==> IsTokenAt(s, from, TokensFrom(s, from)[k])
    decreases |s| - from
  {
    match NextMatch(s, from)
    case None =>
    case Some((p, m)) =>
      TokensAreTokens(s, m.end);
      var rest := TokensFrom(s, m.end);
      assert TokensFrom(s, from) == [m] + rest;
      assert |m.text| == m.end - p;
      assert IsTokenAt(s, from, m);
      forall k | 0 <= k < |rest| ensures IsTokenAt(s, from, rest[k]) {
        assert IsTokenAt(s, m.end, rest[k]);
      }
  }

  /** The first match found from `from` starts at or after `from`. */
  lemma FirstTokenStart(s: string, from: nat)
    requires from <= |s| && |TokensFrom(s, from)| > 0
    ensures from + |TokensFrom(s, from)[0].text| <= TokensFrom(s, from)[0].end
  {
    match NextMatch(s, from)
    case Some((p, m)) =>
      assert TokensFrom(s, from)[0] == m;
      assert |m.text| == m.end - p;
  }

  /** The matches come in order and do not overlap: each starts at or after
      the end of the one before. */
  lemma {:induction false} TokensInOrder(s: string, from: nat)
    requires from <= |s|
    ensures forall k :: 0 <= k < |TokensFrom(s, from)| - 1 ==>
      TokensFrom(s, from)[k].end + |TokensFrom(s, from)[k + 1].text| <= TokensFrom(s, from)[k + 1].end
    decreases |s| - from
  {
    match NextMatch(s, from)
    case None =>
    case Some((p, m)) =>
      TokensInOrder(s, m.end);
      var all, rest := TokensFrom(s, from), TokensFrom(s, m.end);
      assert all == [m] + rest;
      if |rest| > 0 {
        FirstTokenStart(s, m.end);
      }
      forall k | 0 <= k < |all| - 1 ensures all[k].end + |all[k + 1].text| <= all[k + 1].end {
        if k == 0 {
          assert all[0] == m && all[1] == rest[0];
        } else {
          assert all[k] == rest[k - 1] && all[k + 1] == rest[k];
        }
      }
  }

  /** No token is found exactly when the expression matches nowhere. */
  lemma {:induction false} NoTokensIff(s: string)
    ensures FindTokens(s) == [] <==> forall p :: 0 <= p <= |s| ==> MatchAt(s, p).None?
  {
    NextMatchIsFirst(s, 0);
    match NextMatch(s, 0)
    case None =>
    case Some((p, m)) =>
      assert FindTokens(s) == [m] + TokensFrom(s, m.end);
  }

  /** The expression matches wherever the string holds a token-shaped piece
      `{{x@y}}` with no `{` in `x` or `y`. */
  lemma TokenShapeMatches(s: string, p: nat, x: string, y: string)
    requires NoOpenBrace(x) && NoOpenBrace(y)
    requires OccursAt(s, "{{" + x + "@" + y + "}}", p)
    ensures MatchAt(s, p).Some?
    ensures FindTokens(s) != []
  {
    var t := "{{" + x + "@" + y + "}}";
    var q := p + 2;
    assert s[p..p + |t|] == t;
    var a := q + |x|;
    var b := a + 1 + |y|;
    assert s[p] == t[0] && s[p + 1] == t[1];
    assert s[p..p + 2] == "{{";
    forall i | q <= i < b + 2 ensures s[i] != '{' {
      assert s[i] == t[i - p];
    }
    var e := RunEnd(s, q);
    assert b + 2 <= e;
    assert b - p + 2 == |t|;
    assert t[b - p..b - p + 2] == "}}";
    assert s[b..b + 2] == t[b - p..b - p + 2];
    assert OccursAt(s, "}}", b);
    LastCloseIsLast(s, q, e);
    assert LastClose(s, q, e).Some?;
    var b' := LastClose(s, q, e).value;
    assert s[a] == t[a - p] == '@';
    LastAtIsLast(s, q, b');
    assert LastAt(s, q, b').Some?;
    NoTokensIff(s);
  }

  /** A text without `{{`, such as the text `undefined` that an absent body
      stringifies to, has no tokens. */
  lemma NoBracesNoTokens(s: string)
    requires forall p :: !OccursAt(s, "{{", p)
    ensures FindTokens(s) == []
  {
    NoTokensIff(s);
  }

  /** One more `exec` call: a found match is followed by the matches from
      its end, and a null result ends the matches. */
  lemma TokensFromStep(s: string, from: nat, before: seq<Match>)
    requires from <= |s|
    requires before + TokensFrom(s, from) == FindTokens(s)
    ensures NextMatch(s, from).None? ==> before == FindTokens(s)
    ensures NextMatch(s, from).Some? ==> var m := NextMatch(s, from).value.1;
      from < m.end <= |s| && (before + [m]) + TokensFrom(s, m.end) == FindTokens(s)
  {
    match NextMatch(s, from)
    case None =>
      assert TokensFrom(s, from) == [];
    case Some((_, m)) =>
      assert TokensFrom(s, from) == [m] + TokensFrom(s, m.end);
      assert (before + [m]) + TokensFrom(s, m.end) == before + ([m] + TokensFrom(s, m.end));
  }

  /** `_findTokens(subject)`: calls `exec` (one `NextMatch` from
      `lastIndex`) until it returns null, keeping the full text and the two
      groups of each match. */
  method FindTokensLoop(s: string) returns (matches: seq<Match>)
    ensures matches == FindTokens(s)
  {
    matches := [];
    var lastIndex := 0;
    var found := NextMatch(s, lastIndex);
    while found.Some?
      invariant lastIndex <= |s|
      invariant found == NextMatch(s, lastIndex)
      invariant matches + TokensFrom(s, lastIndex) == FindTokens(s)
      decreases |s| - lastIndex
    {
      var m := found.value.1;
      TokensFromStep(s, lastIndex, matches);
      matches := matches + [m];
      lastIndex := m.end;
      found := NextMatch(s, lastIndex);
    }
    TokensFromStep(s, lastIndex, matches);
  }
}
