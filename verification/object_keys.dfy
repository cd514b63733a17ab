/** The order in which JavaScript's `Object.keys` lists the string-keyed
    properties of an ordinary object: first the property names that are array
    indices, in ascending numeric order, then all the other names in the order
    they were first added. */
module ObjectKeys {
  import opened Text

  /** A canonical decimal integer below 2^32 - 1, the names JavaScript treats
      as array indices ("0", "7", "42", but not "007", "-1" or "4294967295"). */
  predicate IsArrayIndex(k: string) {
    |k| > 0 && AllDigits(k) && (k[0] == '0' ==> k == "0") && DecimalValue(k) <= 4294967294
  }

  /** The numeric value of an array-index name (0 for any other name). */
  function IndexValue(k: string): nat
  {
    if IsArrayIndex(k) then DecimalValue(k) else 0
  }

  /** The array-index names among `keys`, in insertion order. */
  function IndexNames(keys: seq<string>): (r: seq<string>)
    ensures forall i :: 0 <= i < |r| ==> IsArrayIndex(r[i])
  {
    if |keys| == 0 then []
    else if IsArrayIndex(keys[0]) then [keys[0]] + IndexNames(keys[1..])
    else IndexNames(keys[1..])
  }

  /** The other names among `keys`, in insertion order. */
  function OtherNames(keys: seq<string>): (r: seq<string>)
    ensures forall i :: 0 <= i < |r| ==> !IsArrayIndex(r[i])
  {
    if |keys| == 0 then []
    else if IsArrayIndex(keys[0]) then OtherNames(keys[1..])
    else [keys[0]] + OtherNames(keys[1..])
  }

  predicate SortedByIndex(ks: seq<string>) {
    forall i, j :: 0 <= i < j < |ks| ==> IndexValue(ks[i]) <= IndexValue(ks[j])
  }

  /** Inserts `k` into `sorted` before the first name of no smaller index value. */
  function Insert(k: string, sorted: seq<string>): (r: seq<string>)
    ensures multiset(r) == multiset(sorted) + multiset{k}
    ensures |r| == |sorted| + 1
  {
    if |sorted| == 0 || IndexValue(k) <= IndexValue(sorted[0]) then [k] + sorted
    else
      assert sorted == [sorted[0]] + sorted[1..];
      [sorted[0]] + Insert(k, sorted[1..])
  }

  lemma {:induction false} InsertSorted(k: string, sorted: seq<string>)
    requires SortedByIndex(sorted)
    ensures SortedByIndex(Insert(k, sorted))
  {
    if |sorted| > 0 && IndexValue(k) > IndexValue(sorted[0]) {
      var rest := sorted[1..];
      InsertSorted(k, rest);
      InsertBound(k, rest, IndexValue(sorted[0]));
      ConsSorted(sorted[0], Insert(k, rest));
    }
  }

  /** Every name of `Insert(k, ks)` has an index value of at least `lo`
      when `k` and every name of `ks` do. */
  lemma InsertBound(k: string, ks: seq<string>, lo: nat)
    requires IndexValue(k) >= lo
    requires forall i :: 0 <= i < |ks| ==> IndexValue(ks[i]) >= lo
    ensures forall i :: 0 <= i < |Insert(k, ks)| ==> IndexValue(Insert(k, ks)[i]) >= lo
  {
    var t := Insert(k, ks);
    forall i | 0 <= i < |t| ensures IndexValue(t[i]) >= lo {
      assert t[i] in multiset(t);
      if t[i] != k {
        assert t[i] in multiset(ks);
        var j :| 0 <= j < |ks| && ks[j] == t[i];
      }
    }
  }

  /** A name no greater than every name of a sorted sequence can go first. */
  lemma ConsSorted(h: string, t: seq<string>)
    requires SortedByIndex(t)
    requires forall i :: 0 <= i < |t| ==> IndexValue(h) <= IndexValue(t[i])
    ensures SortedByIndex([h] + t)
  {
    var r := [h] + t;
    forall i, j | 0 <= i < j < |r| ensures IndexValue(r[i]) <= IndexValue(r[j]) {
      assert r[j] == t[j - 1];
      if i > 0 {
        assert r[i] == t[i - 1];
      }
    }
  }

  /** Insertion sort by index value; equal values keep their order. */
  function SortByIndex(ks: seq<string>): (r: seq<string>)
    ensures multiset(r) == multiset(ks)
    ensures |r| == |ks|
  {
    if |ks| == 0 then []
    else
      assert ks == [ks[0]] + ks[1..];
      Insert(ks[0], SortByIndex(ks[1..]))
  }

  lemma {:induction false} SortByIndexSorted(ks: seq<string>)
    ensures SortedByIndex(SortByIndex(ks))
  {
    if |ks| > 0 {
      SortByIndexSorted(ks[1..]);
      InsertSorted(ks[0], SortByIndex(ks[1..]));
    }
  }

  /** `Object.keys` of an object whose names were added in the order `keys`. */
  function OwnKeys(keys: seq<string>): (r: seq<string>)
  {
    SortByIndex(IndexNames(keys)) + OtherNames(keys)
  }

  lemma {:induction false} NamesPartition(keys: seq<string>)
    ensures multiset(IndexNames(keys)) + multiset(OtherNames(keys)) == multiset(keys)
  {
    if |keys| > 0 {
      NamesPartition(keys[1..]);
      assert keys == [keys[0]] + keys[1..];
    }
  }

  /** `Object.keys` lists every name exactly as often as it was added, the
      array indices first and ascending, the other names after them in
      insertion order. */
  lemma OwnKeysOrder(keys: seq<string>)
    ensures multiset(OwnKeys(keys)) == multiset(keys)
    ensures var n := |IndexNames(keys)|;
      && (forall i :: 0 <= i < |OwnKeys(keys)| ==> (IsArrayIndex(OwnKeys(keys)[i]) <==> i < n))
      && (forall i, j :: 0 <= i < j < n ==> IndexValue(OwnKeys(keys)[i]) <= IndexValue(OwnKeys(keys)[j]))
      && OwnKeys(keys)[n..] == OtherNames(keys)
  {
    NamesPartition(keys);
    SortByIndexSorted(IndexNames(keys));
    var s := SortByIndex(IndexNames(keys));
    forall i | 0 <= i < |s| ensures IsArrayIndex(s[i]) {
      assert s[i] in multiset(IndexNames(keys));
    }
    assert OwnKeys(keys)[|s|..] == OtherNames(keys);
  }

  /** When no name is an array index, `Object.keys` is the insertion order. */
  lemma {:induction false} OwnKeysWithoutIndices(keys: seq<string>)
    requires forall i :: 0 <= i < |keys| ==> !IsArrayIndex(keys[i])
    ensures OwnKeys(keys) == keys
  {
    NoIndexNames(keys);
    assert SortByIndex([]) == [];
  }

  lemma {:induction false} NoIndexNames(keys: seq<string>)
    requires forall i :: 0 <= i < |keys| ==> !IsArrayIndex(keys[i])
    ensures IndexNames(keys) == [] && OtherNames(keys) == keys
  {
    if |keys| > 0 {
      var k, rest := keys[0], keys[1..];
      assert !IsArrayIndex(k);
      assert forall i :: 0 <= i < |rest| ==> rest[i] == keys[i + 1];
      NoIndexNames(rest);
      assert keys == [k] + rest;
    }
  }

  predicate NoDuplicates(s: seq<string>) {
    forall i, j :: 0 <= i < j < |s| ==> s[i] != s[j]
  }

  lemma {:induction false} NoDuplicatesCounts(s: seq<string>, x: string)
    requires NoDuplicates(s)
    ensures multiset(s)[x] <= 1
  {
    if |s| > 0 {
      var rest := s[1..];
      assert s == [s[0]] + rest;
      assert NoDuplicates(rest) by {
        forall i, j | 0 <= i < j < |rest| ensures rest[i] != rest[j] {
          assert rest[i] == s[i + 1] && rest[j] == s[j + 1];
        }
      }
      NoDuplicatesCounts(rest, x);
      if x == s[0] {
        assert x !in rest by {
          forall i | 0 <= i < |rest| ensures rest[i] != x {
            assert rest[i] == s[i + 1];
          }
        }
      }
    }
  }

  /** A sequence with the same elements as one without duplicates has none. */
  lemma SameElementsNoDuplicates(a: seq<string>, b: seq<string>)
    requires NoDuplicates(a) && multiset(a) == multiset(b)
    ensures NoDuplicates(b)
  {
    forall i, j | 0 <= i < j < |b| ensures b[i] != b[j] {
      if b[i] == b[j] {
        var x := b[i];
        assert b == b[..j] + [b[j]] + b[j + 1..];
        assert x in b[..j];
        assert multiset(b)[x] >= 2;
        NoDuplicatesCounts(a, x);
        assert false;
      }
    }
  }

  /** `Object.keys` of distinct names lists each of them once. */
  lemma OwnKeysDistinct(keys: seq<string>)
    requires NoDuplicates(keys)
    ensures NoDuplicates(OwnKeys(keys))
  {
    OwnKeysOrder(keys);
    SameElementsNoDuplicates(keys, OwnKeys(keys));
  }
}
