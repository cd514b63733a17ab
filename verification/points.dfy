/** `_getPoints`: the coordinates sets of the token replacements, that is
    the cartesian product of the replacement groups, one entry per group, in
    lexicographic order with the first group varying slowest. */
module CartesianPoints {

  /** The number of points: the product of the group sizes. */
  function Product<T>(groups: seq<seq<T>>): nat {
    if |groups| == 0 then 1 else |groups[0]| * Product(groups[1..])
  }

  /** `[x].concat(nextPoint)` for every point of `next`, in order. */
  function PrependEach<T>(x: T, next: seq<seq<T>>): (r: seq<seq<T>>)
    ensures |r| == |next|
    ensures forall j :: 0 <= j < |next| ==> r[j] == [x] + next[j]
  {
    seq(|next|, j requires 0 <= j < |next| => [x] + next[j])
  }

  /** The points pushed for the entries of `g`, each followed by every point of `next`. */
  function Prefixed<T>(g: seq<T>, next: seq<seq<T>>): (r: seq<seq<T>>)
    ensures |r| == |g| * |next|
  {
    if |g| == 0 then [] else PrependEach(g[0], next) + Prefixed(g[1..], next)
  }

  /** `_getPoints(groupedByToken)` for a non-empty list of groups. */
  function Points<T>(groups: seq<seq<T>>): (pts: seq<seq<T>>)
    requires |groups| > 0
    decreases |groups|
  {
    if |groups| == 1 then seq(|groups[0]|, i requires 0 <= i < |groups[0]| => [groups[0][i]])
    else Prefixed(groups[0], Points(groups[1..]))
  }

  /** There are exactly as many points as the product of the group sizes
      (none as soon as one group is empty), each with one entry per group. */
  lemma {:induction false} PointsShape<T>(groups: seq<seq<T>>)
    requires |groups| > 0
    ensures |Points(groups)| == Product(groups)
    ensures forall p :: p in Points(groups) ==> |p| == |groups|
    decreases |groups|
  {
    if |groups| == 1 {
      assert Product(groups[1..]) == 1;
    } else {
      var next := Points(groups[1..]);
      PointsShape(groups[1..]);
      PrefixedLengths(groups[0], next, |groups| - 1);
    }
  }

  lemma {:induction false} PrefixedLengths<T>(g: seq<T>, next: seq<seq<T>>, n: nat)
    requires forall p :: p in next ==> |p| == n
    ensures forall p :: p in Prefixed(g, next) ==> |p| == n + 1
  {
    if |g| > 0 {
      PrefixedLengths(g[1..], next, n);
    }
  }

  /** `p` takes its `k`-th entry from the `k`-th group. */
  ghost predicate Picks<T>(p: seq<T>, groups: seq<seq<T>>) {
    |p| == |groups| && forall k :: 0 <= k < |groups| ==> p[k] in groups[k]
  }

  /** Each point picks, for every group, one of that group's entries. */
  lemma {:induction false} PointsPickFromGroups<T>(groups: seq<seq<T>>)
    requires |groups| > 0
    ensures forall p :: p in Points(groups) ==> Picks(p, groups)
    decreases |groups|
  {
    if |groups| > 1 {
      PointsPickFromGroups(groups[1..]);
      PrefixedPicks(groups[0], Points(groups[1..]), groups[1..]);
      assert [groups[0]] + groups[1..] == groups;
    }
  }

  lemma {:induction false} PrefixedPicks<T>(g: seq<T>, next: seq<seq<T>>, rest: seq<seq<T>>)
    requires forall p :: p in next ==> Picks(p, rest)
    ensures forall p :: p in Prefixed(g, next) ==> Picks(p, [g] + rest)
  {
    if |g| > 0 {
      PrefixedPicks(g[1..], next, rest);
      forall p | p in Prefixed(g, next) ensures Picks(p, [g] + rest) {
        if p in PrependEach(g[0], next) {
          var j :| 0 <= j < |next| && p == [g[0]] + next[j];
          assert next[j] in next;
          assert Picks(next[j], rest);
          forall k | 0 <= k < |rest| + 1 ensures p[k] in ([g] + rest)[k] {
            if k > 0 {
              assert p[k] == next[j][k - 1];
            }
          }
        } else {
          assert p in Prefixed(g[1..], next);
          assert Picks(p, [g[1..]] + rest);
          forall k | 0 <= k < |rest| + 1 ensures p[k] in ([g] + rest)[k] {
            if k == 0 {
              assert p[0] in g[1..];
            } else {
              assert ([g] + rest)[k] == ([g[1..]] + rest)[k];
            }
          }
        }
      }
    }
  }

  /** Every choice of one entry per group is a point. */
  lemma {:induction false} EveryChoiceIsAPoint<T>(groups: seq<seq<T>>, c: seq<T>)
    requires |groups| > 0 && |c| == |groups|
    requires forall k :: 0 <= k < |groups| ==> c[k] in groups[k]
    ensures c in Points(groups)
    decreases |groups|
  {
    if |groups| == 1 {
      var i :| 0 <= i < |groups[0]| && groups[0][i] == c[0];
      assert Points(groups)[i] == c;
    } else {
      EveryChoiceIsAPoint(groups[1..], c[1..]);
      ChoiceInPrefixed(groups[0], Points(groups[1..]), c);
    }
  }

  lemma {:induction false} ChoiceInPrefixed<T>(g: seq<T>, next: seq<seq<T>>, c: seq<T>)
    requires |c| > 0 && c[0] in g && c[1..] in next
    ensures c in Prefixed(g, next)
  {
    if g[0] == c[0] {
      var j :| 0 <= j < |next| && next[j] == c[1..];
      assert PrependEach(g[0], next)[j] == c;
    } else {
      ChoiceInPrefixed(g[1..], next, c);
    }
  }

  /** The order is lexicographic: entry `a` of the first group combined
      with point `b` of the rest is point `a * |next| + b`. */
  lemma {:induction false} PrefixedIndex<T>(g: seq<T>, next: seq<seq<T>>, a: nat, b: nat)
    requires a < |g| && b < |next|
    ensures a * |next| + b < |Prefixed(g, next)|
    ensures Prefixed(g, next)[a * |next| + b] == [g[a]] + next[b]
  {
    var n := |next|;
    if a > 0 {
      PrefixedIndex(g[1..], next, a - 1, b);
      assert a * n + b == n + ((a - 1) * n + b);
      assert g[1..][a - 1] == g[a];
    }
  }

  /** The first group varies slowest: the point that takes entry `a` of the
      first group and point `b` of the remaining groups is point
      `a * |Points(rest)| + b`. */
  lemma PointsIndex<T>(groups: seq<seq<T>>, a: nat, b: nat)
    requires |groups| > 1 && a < |groups[0]| && b < |Points(groups[1..])|
    ensures var n := |Points(groups[1..])|;
      a * n + b < |Points(groups)|
      && Points(groups)[a * n + b] == [groups[0][a]] + Points(groups[1..])[b]
  {
    PrefixedIndex(groups[0], Points(groups[1..]), a, b);
  }

  lemma {:induction false} PrefixedAppend<T>(g: seq<T>, x: T, next: seq<seq<T>>)
    ensures Prefixed(g + [x], next) == Prefixed(g, next) + PrependEach(x, next)
  {
    if |g| == 0 {
      assert ([] + [x])[1..] == [];
    } else {
      assert (g + [x])[1..] == g[1..] + [x];
      PrefixedAppend(g[1..], x, next);
    }
  }

  /** `_getPoints`, with the nested `forEach` loops of the source: for every
      entry of the first group the points of the remaining groups are
      computed again and each is pushed with the entry in front. */
  method GetPoints<T>(groups: seq<seq<T>>) returns (points: seq<seq<T>>)
    requires |groups| > 0
    ensures points == Points(groups)
    decreases |groups|
  {
    var currentGroup := groups[0];
    if |groups| == 1 {
      points := seq(|currentGroup|, i requires 0 <= i < |currentGroup| => [currentGroup[i]]);
      return;
    }
    var remaining := groups[1..];
    points := [];
    var i := 0;
    while i < |currentGroup|
      invariant 0 <= i <= |currentGroup|
      invariant points == Prefixed(currentGroup[..i], Points(remaining))
    {
      var nextPoints := GetPoints(remaining);
      var j := 0;
      while j < |nextPoints|
        invariant 0 <= j <= |nextPoints|
        invariant points == Prefixed(currentGroup[..i], nextPoints) + PrependEach(currentGroup[i], nextPoints[..j])
      {
        assert nextPoints[..j + 1] == nextPoints[..j] + [nextPoints[j]];
        points := points + [[currentGroup[i]] + nextPoints[j]];
        j := j + 1;
      }
      assert nextPoints[..j] == nextPoints;
      assert currentGroup[..i + 1] == currentGroup[..i] + [currentGroup[i]];
      PrefixedAppend(currentGroup[..i], currentGroup[i], nextPoints);
      i := i + 1;
    }
    assert currentGroup[..i] == currentGroup;
  }
}
