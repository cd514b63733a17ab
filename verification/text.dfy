/** Operations on strings (`seq<char>`) that the core borrows from JavaScript:
    searching, `split`, `join`, decimal rendering of indices and `toLowerCase`. */
module Text {
  import opened Wrappers

  predicate EndsWith(s: string, suffix: string) {
    |suffix| <= |s| && s[|s| - |suffix|..] == suffix
  }

  /** `t` occurs in `s` starting at index `i`. */
  predicate OccursAt(s: string, t: string, i: nat) {
    i + |t| <= |s| && s[i..i + |t|] == t
  }

  /** The least index at or after `i` where `t` occurs in `s`. */
  function FirstIndexFrom(s: string, t: string, i: nat): (r: Option<nat>)
    requires i <= |s|
    ensures r.Some? ==> i <= r.value && OccursAt(s, t, r.value)
    decreases |s| - i
  {
    if OccursAt(s, t, i) then Some(i)
    else if i == |s| then None
    else FirstIndexFrom(s, t, i + 1)
  }

  /** No occurrence at or after `i` comes before the one found, and there is
      none at all when nothing is found. */
  lemma {:induction false} FirstIndexFromIsFirst(s: string, t: string, i: nat)
    requires i <= |s|
    ensures FirstIndexFrom(s, t, i).Some? ==> forall j: nat :: i <= j < FirstIndexFrom(s, t, i).value ==> !OccursAt(s, t, j)
    ensures FirstIndexFrom(s, t, i).None? ==> forall j: nat :: i <= j ==> !OccursAt(s, t, j)
    decreases |s| - i
  {
    if !OccursAt(s, t, i) && i < |s| {
      FirstIndexFromIsFirst(s, t, i + 1);
    }
  }

  /** The least index where `t` occurs in `s` (JavaScript's `indexOf`, None for -1). */
  function FirstIndex(s: string, t: string): (r: Option<nat>)
    ensures r.Some? ==> OccursAt(s, t, r.value)
  {
    FirstIndexFrom(s, t, 0)
  }

  /** `indexOf` finds the least occurrence, and -1 means there is none. */
  lemma FirstIndexIsFirst(s: string, t: string)
    ensures FirstIndex(s, t).Some? ==> forall j: nat :: j < FirstIndex(s, t).value ==> !OccursAt(s, t, j)
    ensures FirstIndex(s, t).None? ==> forall j: nat :: !OccursAt(s, t, j)
  {
    FirstIndexFromIsFirst(s, t, 0);
  }

  /** `s.split(sep)` for a non-empty separator: the pieces between the
      non-overlapping occurrences of `sep`, found from left to right. */
  function Split(s: string, sep: string): (parts: seq<string>)
    requires |sep| > 0
    ensures |parts| > 0
    decreases |s|
  {
    match FirstIndex(s, sep)
    case None => [s]
    case Some(k) => [s[..k]] + Split(s[k + |sep|..], sep)
  }

  /** `parts.join(sep)`. */
  function Join(parts: seq<string>, sep: string): string
    decreases |parts|
  {
    if |parts| == 0 then ""
    else if |parts| == 1 then parts[0]
    else parts[0] + sep + Join(parts[1..], sep)
  }

  /** `sep` occurs in `p + sep` at its end and nowhere before: the condition
      under which `p` can be told apart from the separator that follows it. */
  predicate SeparatorOnlyAtEnd(p: string, sep: string) {
    FirstIndex(p + sep, sep) == Some(|p|)
  }

  lemma OccursInPrefix(x: string, y: string, t: string, j: nat)
    requires j + |t| <= |x|
    ensures OccursAt(x + y, t, j) <==> OccursAt(x, t, j)
  {
    assert (x + y)[j..j + |t|] == x[j..j + |t|];
  }

  /** Splitting a join recovers the parts, provided no part lets the separator
      after it be found early. */
  lemma {:induction false} SplitJoin(parts: seq<string>, sep: string)
    requires |sep| > 0 && |parts| > 0
    requires forall i :: 0 <= i < |parts| ==> SeparatorOnlyAtEnd(parts[i], sep)
    ensures Split(Join(parts, sep), sep) == parts
    decreases |parts|
  {
    var p := parts[0];
    assert SeparatorOnlyAtEnd(p, sep);
    FirstIndexIsFirst(p + sep, sep);
    if |parts| == 1 {
      forall j: nat ensures !OccursAt(p, sep, j) {
        if j + |sep| <= |p| {
          OccursInPrefix(p, sep, sep, j);
        }
      }
      assert FirstIndex(p, sep).None?;
    } else {
      var rest := Join(parts[1..], sep);
      var s := p + sep + rest;
      assert Join(parts, sep) == s;
      forall j: nat | j < |p| ensures !OccursAt(s, sep, j) {
        OccursInPrefix(p + sep, rest, sep, j);
      }
      OccursInPrefix(p + sep, rest, sep, |p|);
      assert OccursAt(s, sep, |p|);
      FirstIndexIsFirst(s, sep);
      assert FirstIndex(s, sep) == Some(|p|);
      assert s[|p| + |sep|..] == rest;
      assert s[..|p|] == p;
      SplitJoin(parts[1..], sep);
    }
  }

  predicate IsDigit(c: char) {
    '0' <= c <= '9'
  }

  predicate AllDigits(s: string) {
    forall i :: 0 <= i < |s| ==> IsDigit(s[i])
  }

  function DigitChar(d: nat): char
    requires d < 10
  {
    "0123456789"[d]
  }

  /** The decimal rendering of `n`, as a template literal `${n}` gives it. */
  function NatToString(n: nat): (s: string)
    ensures |s| > 0 && AllDigits(s)
    ensures s[0] == '0' ==> n == 0 && s == "0"
  {
    if n < 10 then [DigitChar(n)] else NatToString(n / 10) + [DigitChar(n % 10)]
  }

  /** The value of a string of decimal digits. */
  function DecimalValue(s: string): nat
    requires AllDigits(s)
  {
    if |s| == 0 then 0 else 10 * DecimalValue(s[..|s| - 1]) + (s[|s| - 1] as int - '0' as int)
  }

  /** Reading the rendering back gives the number: the rendering is injective. */
  lemma {:induction false} DecimalRoundTrip(n: nat)
    ensures DecimalValue(NatToString(n)) == n
  {
    if n >= 10 {
      var s := NatToString(n);
      assert s[..|s| - 1] == NatToString(n / 10);
      DecimalRoundTrip(n / 10);
    }
  }

  lemma NatToStringInjective(m: nat, n: nat)
    requires NatToString(m) == NatToString(n)
    ensures m == n
  {
    DecimalRoundTrip(m);
    DecimalRoundTrip(n);
  }

  /** `toLowerCase` on ASCII letters (the only letters the core lowercases). */
  function ToLowerAscii(s: string): (r: string)
    ensures |r| == |s|
    ensures forall i :: 0 <= i < |s| ==> r[i] == if 'A' <= s[i] <= 'Z' then (s[i] as int + 32) as char else s[i]
  {
    seq(|s|, i requires 0 <= i < |s| => if 'A' <= s[i] <= 'Z' then (s[i] as int + 32) as char else s[i])
  }
}
