/** Insertion-ordered string-keyed dictionaries with the semantics of a JavaScript `Map`
    (and of the string-keyed properties of a plain object): `set` on an
    existing key replaces its value in place, `set` on a new key appends an
    entry, iteration follows insertion order. */
module Assoc {
  import opened Wrappers

  function Keys<V>(m: seq<(string, V)>): (ks: seq<string>)
    ensures |ks| == |m|
    ensures forall i :: 0 <= i < |m| ==> ks[i] == m[i].0
  {
    if |m| == 0 then [] else [m[0].0] + Keys(m[1..])
  }

  predicate DistinctKeys<V>(m: seq<(string, V)>) {
    forall i, j :: 0 <= i < j < |m| ==> m[i].0 != m[j].0
  }

  /** `map.get(k)`: the value of the first entry with key `k`. */
  function Get<V>(m: seq<(string, V)>, k: string): (r: Option<V>)
  {
    if |m| == 0 then None
    else if m[0].0 == k then Some(m[0].1)
    else Get(m[1..], k)
  }

  /** `map.set(k, v)`. */
  function Set<V>(m: seq<(string, V)>, k: string, v: V): (r: seq<(string, V)>)
    ensures Get(r, k) == Some(v)
    ensures forall k' :: k' != k ==> Get(r, k') == Get(m, k')
  {
    if |m| == 0 then [(k, v)]
    else if m[0].0 == k then [(k, v)] + m[1..]
    else
      var r := [m[0]] + Set(m[1..], k, v);
      assert r[1..] == Set(m[1..], k, v);
      r
  }

  /** `set` on a present key keeps the key order; on a new key it appends. */
  lemma {:induction false} SetKeys<V>(m: seq<(string, V)>, k: string, v: V)
    ensures Keys(Set(m, k, v)) == if k in Keys(m) then Keys(m) else Keys(m) + [k]
  {
    if |m| > 0 && m[0].0 != k {
      var r := Set(m, k, v);
      assert r[1..] == Set(m[1..], k, v);
      SetKeys(m[1..], k, v);
    }
  }

  /** `set` keeps the keys distinct. */
  lemma SetKeepsKeysDistinct<V>(m: seq<(string, V)>, k: string, v: V)
    requires DistinctKeys(m)
    ensures DistinctKeys(Set(m, k, v))
  {
    var r := Set(m, k, v);
    var ks, rs := Keys(m), Keys(r);
    SetKeys(m, k, v);
    forall i, j | 0 <= i < j < |r| ensures r[i].0 != r[j].0 {
      assert rs[i] == r[i].0 && rs[j] == r[j].0;
      if k !in ks && j == |m| {
        assert rs[i] == ks[i];
      }
    }
  }

  /** `get` finds a value exactly for the keys present. */
  lemma {:induction false} GetDefinedIff<V>(m: seq<(string, V)>, k: string)
    ensures Get(m, k).Some? <==> k in Keys(m)
  {
    if |m| > 0 {
      GetDefinedIff(m[1..], k);
    }
  }

  /** `get` on a map with one more entry at the end. */
  lemma {:induction false} GetAppend<V>(m: seq<(string, V)>, x: (string, V), k: string)
    ensures Get(m + [x], k) == if Get(m, k).Some? then Get(m, k) else if x.0 == k then Some(x.1) else None
  {
    if |m| > 0 {
      assert (m + [x])[1..] == m[1..] + [x];
      GetAppend(m[1..], x, k);
    }
  }

  /** `set` of every entry of `entries` on `m`, in order: `new Map(entries)`
      when `m` is empty, and the copy loop of the HTTP requestor. */
  function SetAll<V>(m: seq<(string, V)>, entries: seq<(string, V)>): seq<(string, V)>
    decreases |entries|
  {
    if |entries| == 0 then m
    else
      var last := entries[|entries| - 1];
      Set(SetAll(m, entries[..|entries| - 1]), last.0, last.1)
  }

  /** The keys of `ks` not in `seen`, in order. */
  function NewKeys(seen: seq<string>, ks: seq<string>): (r: seq<string>)
    ensures forall k :: k in r <==> k in ks && k !in seen
    decreases |ks|
  {
    if |ks| == 0 then []
    else
      var rest := NewKeys(seen, ks[..|ks| - 1]);
      assert forall k :: k in ks <==> k in ks[..|ks| - 1] || k == ks[|ks| - 1];
      if ks[|ks| - 1] in seen then rest else rest + [ks[|ks| - 1]]
  }

  /** The first occurrence of each key of `ks` not in `seen`, in the order
      the keys first appear. */
  function FirstOccurrences(seen: seq<string>, ks: seq<string>): seq<string>
    decreases |ks|
  {
    if |ks| == 0 then []
    else if ks[0] in seen then FirstOccurrences(seen, ks[1..])
    else [ks[0]] + FirstOccurrences(seen + [ks[0]], ks[1..])
  }

  /** `ks` after `k` was set on a map whose keys are `ks`. */
  function WithKey(ks: seq<string>, k: string): seq<string> {
    if k in ks then ks else ks + [k]
  }

  /** The first occurrences are exactly the keys of `ks` outside `seen`,
      each once. */
  lemma {:induction false} FirstOccurrencesSpec(seen: seq<string>, ks: seq<string>)
    ensures forall k :: k in FirstOccurrences(seen, ks) <==> k in ks && k !in seen
    ensures forall i, j :: 0 <= i < j < |FirstOccurrences(seen, ks)| ==>
      FirstOccurrences(seen, ks)[i] != FirstOccurrences(seen, ks)[j]
    decreases |ks|
  {
    if |ks| > 0 {
      var a := ks[0];
      assert forall k :: k in ks <==> k == a || k in ks[1..];
      if a in seen {
        FirstOccurrencesSpec(seen, ks[1..]);
      } else {
        FirstOccurrencesSpec(seen + [a], ks[1..]);
        var rest := FirstOccurrences(seen + [a], ks[1..]);
        var r := [a] + rest;
        assert a !in rest;
        assert forall j :: 0 < j < |r| ==> r[j] == rest[j - 1];
      }
    }
  }

  /** Setting the keys of `ks`, one after the other, on a map whose keys are
      `base`: the keys of `base` stay in place and the first occurrences of
      the new ones follow. */
  lemma WithKeyStep(base: seq<string>, k: string, rest: seq<string>, after: seq<string>)
    requires after == WithKey(base, k) + FirstOccurrences(WithKey(base, k), rest)
    ensures after == base + FirstOccurrences(base, [k] + rest)
  {
    assert ([k] + rest)[1..] == rest;
    if k !in base {
      assert base + [k] + FirstOccurrences(base + [k], rest) == base + ([k] + FirstOccurrences(base + [k], rest));
    }
  }

  /** With distinct keys, every entry wins over what `m` holds for its key,
      and `m` answers for every other key. */
  lemma {:induction false} SetAllGet<V>(m: seq<(string, V)>, entries: seq<(string, V)>, k: string)
    requires DistinctKeys(entries)
    ensures Get(SetAll(m, entries), k) == if k in Keys(entries) then Get(entries, k) else Get(m, k)
    decreases |entries|
  {
    if |entries| > 0 {
      LastEntry(entries, k);
      SetAllGet(m, entries[..|entries| - 1], k);
    }
  }

  /** How the last of distinct entries answers `get` and `Keys`. */
  lemma LastEntry<V>(entries: seq<(string, V)>, k: string)
    requires |entries| > 0 && DistinctKeys(entries)
    ensures var init, last := entries[..|entries| - 1], entries[|entries| - 1];
      && DistinctKeys(init)
      && (k in Keys(entries) <==> k in Keys(init) || k == last.0)
      && (k == last.0 ==> Get(entries, k) == Some(last.1) && k !in Keys(init))
      && (k != last.0 ==> Get(entries, k) == Get(init, k))
  {
    var init, last := entries[..|entries| - 1], entries[|entries| - 1];
    assert entries == init + [last];
    GetAppend(init, last, k);
    GetDefinedIff(init, k);
    assert Keys(entries) == Keys(init) + [last.0];
    if k == last.0 {
      assert k !in Keys(init);
    }
  }

  /** With distinct keys, the keys of `m` keep their places and the new keys
      follow in the order of `entries`. */
  lemma {:induction false} SetAllKeys<V>(m: seq<(string, V)>, entries: seq<(string, V)>)
    requires DistinctKeys(entries)
    ensures Keys(SetAll(m, entries)) == Keys(m) + NewKeys(Keys(m), Keys(entries))
    decreases |entries|
  {
    if |entries| > 0 {
      var init, last := entries[..|entries| - 1], entries[|entries| - 1];
      LastKeys(entries);
      SetAllKeys(m, init);
      SetKeys(SetAll(m, init), last.0, last.1);
      AppendNewKey(Keys(m), NewKeys(Keys(m), Keys(init)), Keys(entries));
    }
  }

  /** One more key of `ks` either is already there or goes at the end. */
  lemma AppendNewKey(base: seq<string>, r: seq<string>, ks: seq<string>)
    requires |ks| > 0 && NewKeys(base, ks[..|ks| - 1]) == r && ks[|ks| - 1] !in r
    ensures (if ks[|ks| - 1] in base + r then base + r else base + r + [ks[|ks| - 1]]) == base + NewKeys(base, ks)
  {
    var a := ks[|ks| - 1];
    if a !in base {
      assert base + r + [a] == base + (r + [a]);
    }
  }

  /** The keys of distinct entries end in the key of the last one, which
      no earlier entry has. */
  lemma LastKeys<V>(entries: seq<(string, V)>)
    requires |entries| > 0 && DistinctKeys(entries)
    ensures var init, last := entries[..|entries| - 1], entries[|entries| - 1];
      && DistinctKeys(init)
      && Keys(entries)[..|entries| - 1] == Keys(init)
      && Keys(entries)[|entries| - 1] == last.0
      && last.0 !in Keys(init)
  {
    var init, last := entries[..|entries| - 1], entries[|entries| - 1];
    assert entries == init + [last];
  }

  lemma {:induction false} NewKeysOfNothing(ks: seq<string>)
    ensures NewKeys([], ks) == ks
    decreases |ks|
  {
    if |ks| > 0 {
      NewKeysOfNothing(ks[..|ks| - 1]);
    }
  }
}
