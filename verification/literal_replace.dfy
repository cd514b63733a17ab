/** `_replaceTokenSubject`: the token text is escaped into a regular
    expression that matches it literally, and `String.prototype.replace` with
    that global expression replaces every occurrence from left to right. The
    replacement value still goes through `replace`'s `$` patterns. */
module LiteralReplace {
  import opened Wrappers
  import opened Text

  /** The characters the escaping expression `/([.*+?^=!:${}()|[\]/\\])/g` prefixes with a backslash. */
  predicate IsRegExpMeta(c: char) {
    c in ".*+?^=!:${}()|[]/\\"
  }

  /** `token.replace(/([.*+?^=!:${}()|[\]/\\])/g, '\\$1')`. */
  function EscapeRegExp(t: string): (r: string)
    ensures |r| >= |t|
  {
    if |t| == 0 then ""
    else (if IsRegExpMeta(t[0]) then ['\\', t[0]] else [t[0]]) + EscapeRegExp(t[1..])
  }

  /** What a regular expression source made of plain characters and
      backslash escapes matches literally: each `\c` stands for `c`. */
  function Unescape(r: string): string
    decreases |r|
  {
    if |r| == 0 then ""
    else if r[0] == '\\' && |r| >= 2 then [r[1]] + Unescape(r[2..])
    else [r[0]] + Unescape(r[1..])
  }

  /** Every metacharacter of the escaped source is preceded by a backslash,
      and the source stands for the token text itself. */
  lemma {:induction false} EscapeIsLiteral(t: string)
    ensures Unescape(EscapeRegExp(t)) == t
  {
    if |t| > 0 {
      EscapeIsLiteral(t[1..]);
      var r := EscapeRegExp(t);
      if IsRegExpMeta(t[0]) {
        assert r[2..] == EscapeRegExp(t[1..]);
      } else {
        assert t[0] != '\\';
        assert r[1..] == EscapeRegExp(t[1..]);
      }
      assert t == [t[0]] + t[1..];
    }
  }

  /** The text a replacement value stands for at a match of `s[pos..end]`:
      `$$` is `$`, `$&` the match, `` $` `` the text before it, `$'` the text
      after it; with no capture groups, every other `$` is kept literally. */
  function Substitution(v: string, s: string, pos: nat, end: nat): string
    requires pos <= end <= |s|
    decreases |v|
  {
    if |v| == 0 then ""
    else if v[0] == '$' && |v| >= 2 && v[1] == '$' then "$" + Substitution(v[2..], s, pos, end)
    else if v[0] == '$' && |v| >= 2 && v[1] == '&' then s[pos..end] + Substitution(v[2..], s, pos, end)
    else if v[0] == '$' && |v| >= 2 && v[1] == '`' then s[..pos] + Substitution(v[2..], s, pos, end)
    else if v[0] == '$' && |v| >= 2 && v[1] == '\'' then s[end..] + Substitution(v[2..], s, pos, end)
    else [v[0]] + Substitution(v[1..], s, pos, end)
  }

  /** A value without `$` stands for itself. */
  lemma {:induction false} PlainSubstitution(v: string, s: string, pos: nat, end: nat)
    requires pos <= end <= |s|
    requires '$' !in v
    ensures Substitution(v, s, pos, end) == v
    decreases |v|
  {
    if |v| > 0 {
      assert v[0] != '$';
      assert '$' !in v[1..] by {
        forall i | 0 <= i < |v[1..]| ensures v[1..][i] != '$' {
          assert v[1..][i] == v[i + 1];
        }
      }
      PlainSubstitution(v[1..], s, pos, end);
      assert v == [v[0]] + v[1..];
    }
  }

  /** A global replace of a non-empty literal `t` from index `from` on. */
  function ReplaceAllFrom(s: string, t: string, v: string, from: nat): string
    requires |t| > 0 && from <= |s|
    decreases |s| - from
  {
    match FirstIndexFrom(s, t, from)
    case None => s[from..]
    case Some(k) => s[from..k] + Substitution(v, s, k, k + |t|) + ReplaceAllFrom(s, t, v, k + |t|)
  }

  /** A global replace of the empty expression from index `from` on: it
      matches at every index, once before each character and once at the end. */
  function ReplaceEmptyFrom(s: string, v: string, from: nat): string
    requires from <= |s|
    decreases |s| - from
  {
    if from == |s| then Substitution(v, s, from, from)
    else Substitution(v, s, from, from) + [s[from]] + ReplaceEmptyFrom(s, v, from + 1)
  }

  /** `_replaceTokenSubject(token, value, tokenSubject)`. */
  function ReplaceTokenSubject(token: string, value: string, subject: string): string {
    if |token| == 0 then ReplaceEmptyFrom(subject, value, 0)
    else ReplaceAllFrom(subject, token, value, 0)
  }

  /** When the token does not occur, the subject comes back unchanged. */
  lemma AbsentTokenUnchanged(token: string, value: string, subject: string)
    requires |token| > 0
    requires FirstIndex(subject, token).None?
    ensures ReplaceTokenSubject(token, value, subject) == subject
  {
    assert subject[0..] == subject;
  }

  /** Occurrences in a suffix are occurrences in the whole string, shifted. */
  lemma OccursInSuffix(s: string, t: string, from: nat, j: nat)
    requires from <= |s|
    ensures OccursAt(s[from..], t, j) <==> OccursAt(s, t, from + j)
  {
    if from + j + |t| <= |s| {
      assert s[from..][j..j + |t|] == s[from + j..from + j + |t|];
    }
  }

  /** Searching a suffix is searching the whole string from its start. */
  lemma FirstIndexShift(s: string, t: string, from: nat)
    requires from <= |s|
    ensures FirstIndex(s[from..], t).Some? <==> FirstIndexFrom(s, t, from).Some?
    ensures FirstIndex(s[from..], t).Some? ==>
      FirstIndexFrom(s, t, from).value == from + FirstIndex(s[from..], t).value
  {
    var a := FirstIndex(s[from..], t);
    var b := FirstIndexFrom(s, t, from);
    FirstIndexIsFirst(s[from..], t);
    FirstIndexFromIsFirst(s, t, from);
    if a.Some? {
      OccursInSuffix(s, t, from, a.value);
      OccursInSuffix(s, t, from, b.value - from);
    } else if b.Some? {
      OccursInSuffix(s, t, from, b.value - from);
    }
  }

  /** When every match from `from` on stands for `w`, the replace is the
      literal replace-all `split(t).join(w)` of the rest. */
  lemma {:induction false} ReplaceIsSplitJoin(s: string, t: string, v: string, w: string, from: nat)
    requires |t| > 0 && from <= |s|
    requires forall k: nat :: from <= k && OccursAt(s, t, k) ==> Substitution(v, s, k, k + |t|) == w
    ensures ReplaceAllFrom(s, t, v, from) == Join(Split(s[from..], t), w)
    decreases |s| - from
  {
    match FirstIndexFrom(s, t, from)
    case None =>
      ReplaceSplitJoinNone(s, t, v, from);
    case Some(k) =>
      ReplaceIsSplitJoin(s, t, v, w, k + |t|);
      ReplaceSplitJoinStep(s, t, v, w, from, k);
  }

  /** With no match left, the replace and the split both keep the rest. */
  lemma ReplaceSplitJoinNone(s: string, t: string, v: string, from: nat)
    requires |t| > 0 && from <= |s|
    requires FirstIndexFrom(s, t, from).None?
    ensures ReplaceAllFrom(s, t, v, from) == s[from..]
    ensures forall w :: Join(Split(s[from..], t), w) == s[from..]
  {
    FirstIndexShift(s, t, from);
    assert Split(s[from..], t) == [s[from..]];
  }

  /** One match of the replace, where the substitution yields `w`, is one
      piece of the split followed by `w`. */
  lemma ReplaceSplitJoinStep(s: string, t: string, v: string, w: string, from: nat, k: nat)
    requires |t| > 0 && from <= |s|
    requires FirstIndexFrom(s, t, from) == Some(k)
    requires Substitution(v, s, k, k + |t|) == w
    requires ReplaceAllFrom(s, t, v, k + |t|) == Join(Split(s[k + |t|..], t), w)
    ensures ReplaceAllFrom(s, t, v, from) == Join(Split(s[from..], t), w)
  {
    FirstIndexShift(s, t, from);
    SplitJoinStepAt(s, t, w, from, k);
    ReplaceAllFromAt(s, t, v, from, k);
  }

  /** The replace from `from`, unfolded at its first match `k`. */
  lemma ReplaceAllFromAt(s: string, t: string, v: string, from: nat, k: nat)
    requires |t| > 0 && from <= |s|
    requires FirstIndexFrom(s, t, from) == Some(k)
    ensures from <= k && k + |t| <= |s|
    ensures ReplaceAllFrom(s, t, v, from) == s[from..k] + Substitution(v, s, k, k + |t|) + ReplaceAllFrom(s, t, v, k + |t|)
  {
  }

  /** `SplitJoinStep` on the suffix of `s` from `from`, in terms of `s`. */
  lemma SplitJoinStepAt(s: string, t: string, w: string, from: nat, k: nat)
    requires |t| > 0 && from <= k <= |s|
    requires FirstIndex(s[from..], t) == Some(k - from)
    ensures k + |t| <= |s|
    ensures Join(Split(s[from..], t), w) == s[from..k] + w + Join(Split(s[k + |t|..], t), w)
  {
    var x := s[from..];
    var j := k - from;
    SplitJoinStep(x, t, w, j);
    assert x[..j] == s[from..k];
    assert x[j + |t|..] == s[k + |t|..];
  }

  /** One step of `split` followed by `join`. */
  lemma SplitJoinStep(x: string, t: string, v: string, j: nat)
    requires |t| > 0
    requires FirstIndex(x, t) == Some(j)
    ensures j + |t| <= |x|
    ensures Join(Split(x, t), v) == x[..j] + v + Join(Split(x[j + |t|..], t), v)
  {
    var rest := Split(x[j + |t|..], t);
    assert Split(x, t) == [x[..j]] + rest;
    assert ([x[..j]] + rest)[1..] == rest;
  }

  /** For a value without `$`, the replace is the literal replace-all
      `subject.split(token).join(value)`. */
  lemma DollarFreeReplaceIsSplitJoin(token: string, value: string, subject: string)
    requires |token| > 0
    requires '$' !in value
    ensures ReplaceTokenSubject(token, value, subject) == Join(Split(subject, token), value)
  {
    forall k: nat | OccursAt(subject, token, k)
      ensures Substitution(value, subject, k, k + |token|) == value
    {
      PlainSubstitution(value, subject, k, k + |token|);
    }
    ReplaceIsSplitJoin(subject, token, value, value, 0);
    assert subject[0..] == subject;
  }

  /** `$&` puts the matched token back: replacing with `$&` changes nothing. */
  lemma MatchPatternRestores(s: string, t: string, from: nat)
    requires |t| > 0 && from <= |s|
    ensures ReplaceAllFrom(s, t, "$&", from) == s[from..]
  {
    forall k: nat | from <= k && OccursAt(s, t, k)
      ensures Substitution("$&", s, k, k + |t|) == t
    {
      MatchSubstitution(s, t, k);
    }
    ReplaceIsSplitJoin(s, t, "$&", t, from);
    JoinSplit(s[from..], t);
  }

  /** Joining the pieces of a split with the separator gives the text back. */
  lemma {:induction false} JoinSplit(x: string, t: string)
    requires |t| > 0
    ensures Join(Split(x, t), t) == x
    decreases |x|
  {
    match FirstIndex(x, t)
    case None =>
      assert Split(x, t) == [x];
    case Some(j) =>
      SplitJoinStep(x, t, t, j);
      JoinSplit(x[j + |t|..], t);
      assert x == x[..j] + x[j..j + |t|] + x[j + |t|..];
  }

  /** `$&` alone stands for the match, here an occurrence of `t`. */
  lemma MatchSubstitution(s: string, t: string, k: nat)
    requires OccursAt(s, t, k)
    ensures Substitution("$&", s, k, k + |t|) == t
  {
    assert "$&"[2..] == "";
  }
}
