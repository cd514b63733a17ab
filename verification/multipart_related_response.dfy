/** The `multipart/related` merger (RFC 2387): all the sub-responses become
    the parts of one response with status 207 (Multi-Status, section 11.1 of
    RFC 4918). The opening frame is `<boundary>--` followed by CRLF, the
    parts are separated by CRLF `--<boundary>` CRLF and the body ends with
    CRLF `--<boundary>--`. */
module MultipartRelatedResponse {
  import opened Wrappers
  import opened Text
  import opened Assoc
  import opened Types
  import opened ResponseMergerBase

  /** One header line of a serialised part, `name: value` CRLF. */
  function HeaderLine(name: string, value: string): string {
    name + ": " + value + Crlf
  }

  /** The header lines of a part, in the `Map`'s order. */
  function HeaderLines(h: seq<(string, string)>): string {
    if |h| == 0 then "" else HeaderLine(h[0].0, h[0].1) + HeaderLines(h[1..])
  }

  lemma {:induction false} HeaderLinesAppend(h: seq<(string, string)>, name: string, value: string)
    ensures HeaderLines(h + [(name, value)]) == HeaderLines(h) + HeaderLine(name, value)
  {
    if |h| == 0 {
      assert ([] + [(name, value)])[1..] == [];
    } else {
      assert (h + [(name, value)])[1..] == h[1..] + [(name, value)];
      HeaderLinesAppend(h[1..], name, value);
    }
  }

  /** `serializeResponse(response)`: the header lines, an empty line, the body. */
  function Serialized(r: Response): string {
    HeaderLines(r.headers) + Crlf + r.body
  }

  /** `serializeResponse(response)`, with the source's `forEach` over the headers. */
  method SerializeResponse(response: Response) returns (s: string)
    ensures s == Serialized(response)
  {
    var output := "";
    var crlf := Crlf;
    var i := 0;
    while i < |response.headers|
      invariant 0 <= i <= |response.headers|
      invariant output == HeaderLines(response.headers[..i])
    {
      var (name, value) := response.headers[i];
      assert response.headers[..i + 1] == response.headers[..i] + [(name, value)];
      HeaderLinesAppend(response.headers[..i], name, value);
      output := output + name + ": " + value + crlf;
      i := i + 1;
    }
    assert response.headers[..i] == response.headers;
    s := output + crlf + response.body;
  }

  /** Reading a part back: header lines up to the empty line, each split at
      its first `: `, then the body. */
  function SplitHeader(line: string): (string, string) {
    match FirstIndex(line, ": ")
    case None => (line, "")
    case Some(j) => (line[..j], line[j + 2..])
  }

  function ReadPart(s: string): (seq<(string, string)>, string)
    decreases |s|
  {
    if OccursAt(s, Crlf, 0) then ([], s[2..])
    else
      match FirstIndex(s, Crlf)
      case None => ([], s)
      case Some(k) =>
        var rest := ReadPart(s[k + 2..]);
        ([SplitHeader(s[..k])] + rest.0, rest.1)
  }

  /** A header that can be read back: its name has no `: ` that would be
      found before the one after it, and its line no CRLF before the one
      that ends it. */
  predicate Readable(name: string, value: string) {
    SeparatorOnlyAtEnd(name, ": ") && SeparatorOnlyAtEnd(name + ": " + value, Crlf)
  }

  /** Appending text after the first occurrence does not move it. */
  lemma FirstIndexExtend(x: string, y: string, t: string)
    requires FirstIndex(x, t).Some?
    ensures FirstIndex(x + y, t) == FirstIndex(x, t)
  {
    var k := FirstIndex(x, t).value;
    FirstIndexIsFirst(x, t);
    FirstIndexIsFirst(x + y, t);
    OccursInPrefix(x, y, t, k);
    forall j: nat | j < k ensures !OccursAt(x + y, t, j) {
      OccursInPrefix(x, y, t, j);
    }
  }

  lemma ReadLine(name: string, value: string, rest: string)
    requires Readable(name, value)
    ensures var s := HeaderLine(name, value) + rest;
      && !OccursAt(s, Crlf, 0)
      && FirstIndex(s, Crlf) == Some(|name| + 2 + |value|)
      && s[..|name| + 2 + |value|] == name + ": " + value
      && s[|name| + 2 + |value| + 2..] == rest
      && SplitHeader(name + ": " + value) == (name, value)
  {
    var line := name + ": " + value;
    var s := HeaderLine(name, value) + rest;
    assert HeaderLine(name, value) == line + Crlf;
    FirstIndexExtend(line + Crlf, rest, Crlf);
    assert s == line + Crlf + rest;
    FirstIndexExtend(name + ": ", value, ": ");
    assert line[..|name|] == name;
    assert line[|name| + 2..] == value;
  }

  /** Reading a readable header line takes it off the front. */
  lemma ReadPartStep(name: string, value: string, rest: string)
    requires Readable(name, value)
    ensures ReadPart(HeaderLine(name, value) + rest) == ([(name, value)] + ReadPart(rest).0, ReadPart(rest).1)
  {
    ReadLine(name, value, rest);
  }

  /** The empty line ends the headers; the rest is the body. */
  lemma ReadPartBody(body: string)
    ensures ReadPart(Crlf + body) == ([], body)
  {
    assert OccursAt(Crlf + body, Crlf, 0);
    assert (Crlf + body)[2..] == body;
  }

  lemma SerializedCons(r: Response)
    requires |r.headers| > 0
    ensures Serialized(r) == HeaderLine(r.headers[0].0, r.headers[0].1) + Serialized(Response(r.headers[1..], r.body))
  {
  }

  /** Reading a serialised part gives back its headers, in order, and its
      body, whenever every header is readable. */
  lemma {:induction false} ReadSerialized(r: Response)
    requires forall i :: 0 <= i < |r.headers| ==> Readable(r.headers[i].0, r.headers[i].1)
    ensures ReadPart(Serialized(r)) == (r.headers, r.body)
    decreases |r.headers|
  {
    var h := r.headers;
    if |h| == 0 {
      ReadPartBody(r.body);
    } else {
      var tail := Response(h[1..], r.body);
      assert forall i :: 0 <= i < |tail.headers| ==> tail.headers[i] == h[i + 1];
      ReadSerialized(tail);
      ReadSerializedCons(r);
      assert h == [h[0]] + h[1..];
    }
  }

  /** Reading a serialised part takes its first header line off the front. */
  lemma ReadSerializedCons(r: Response)
    requires |r.headers| > 0 && Readable(r.headers[0].0, r.headers[0].1)
    ensures var rest := ReadPart(Serialized(Response(r.headers[1..], r.body)));
      ReadPart(Serialized(r)) == ([r.headers[0]] + rest.0, rest.1)
  {
    SerializedCons(r);
    ReadPartStep(r.headers[0].0, r.headers[0].1, Serialized(Response(r.headers[1..], r.body)));
  }

  /** The separator between two parts. */
  function Separator(boundary: string): string {
    Crlf + "--" + boundary + Crlf
  }

  function Opening(boundary: string): string {
    boundary + "--" + Crlf
  }

  function Closing(boundary: string): string {
    Crlf + "--" + boundary + "--"
  }

  /** The `Content-Type` header value `content-type.format` builds, with
      both parameters quoted. */
  function ContentTypeValue(boundary: string, subType: string): string {
    "multipart/related; boundary=\"" + boundary + "\"; type=\"" + subType + "\""
  }

  /** The serialised parts: one per response, in order, each cleaned first. */
  function Parts(responses: seq<Response>): (parts: seq<string>)
    ensures |parts| == |responses|
    ensures forall i :: 0 <= i < |responses| ==> parts[i] == Serialized(Cleaned(responses[i]))
  {
    seq(|responses|, i requires 0 <= i < |responses| => Serialized(Cleaned(responses[i])))
  }

  /** `mergeResponses(responses)` with `boundary` the delimiter that
      `_generateDelimiter` would return. */
  function Merged(responses: seq<Response>, boundary: string): (r: Response)
    ensures r.headers == [("Status", "207"), ("Content-Type", ContentTypeValue(boundary, Negotiate(responses)))]
  {
    var headers := Set(Set([], "Status", "207"), "Content-Type", ContentTypeValue(boundary, Negotiate(responses)));
    Response(headers, Opening(boundary) + Join(Parts(responses), Separator(boundary)) + Closing(boundary))
  }

  /** Recovering the parts from a merged body: remove the opening and
      closing frames and split on the separator. */
  function Unframe(body: string, boundary: string): Option<seq<string>> {
    var o, c := Opening(boundary), Closing(boundary);
    if |o| + |c| <= |body| && body[..|o|] == o && body[|body| - |c|..] == c
    then Some(Split(body[|o|..|body| - |c|], Separator(boundary)))
    else None
  }

  /** Round trip: when no part lets the separator after it be found early,
      unframing and splitting the merged body recovers exactly the
      serialised parts, one per response, in order. */
  lemma MergedRoundTrip(responses: seq<Response>, boundary: string)
    requires |responses| > 0
    requires forall i :: 0 <= i < |responses| ==> SeparatorOnlyAtEnd(Parts(responses)[i], Separator(boundary))
    ensures Unframe(Merged(responses, boundary).body, boundary) == Some(Parts(responses))
  {
    var o, c := Opening(boundary), Closing(boundary);
    var mid := Join(Parts(responses), Separator(boundary));
    var body := Merged(responses, boundary).body;
    assert body == o + mid + c;
    assert body[..|o|] == o;
    assert body[|body| - |c|..] == c;
    assert body[|o|..|body| - |c|] == mid;
    SplitJoin(Parts(responses), Separator(boundary));
  }

  /** The two responses of the counterexample below and their parts. */
  lemma CounterexampleParts()
    ensures Parts([Response([], "--d"), Response([], "x")]) == [Crlf + "--d", Crlf + "x"]
  {
    var rs := [Response([], "--d"), Response([], "x")];
    assert !EndsWith("--d", Crlf) && !EndsWith("x", Crlf);
    assert Cleaned(rs[0]) == rs[0] && Cleaned(rs[1]) == rs[1];
    assert HeaderLines([]) == "";
    assert Serialized(rs[0]) == Crlf + "--d" && Serialized(rs[1]) == Crlf + "x";
    var ps := Parts(rs);
    assert ps[0] == Crlf + "--d" && ps[1] == Crlf + "x";
  }

  lemma CounterexampleSplit()
    ensures Split(Join([Crlf + "--d", Crlf + "x"], Separator("d")), Separator("d")) == ["", "--d" + Crlf + Crlf + "x"]
  {
    var sep := Separator("d");
    var mid := Join([Crlf + "--d", Crlf + "x"], sep);
    assert mid == Crlf + "--d" + sep + Crlf + "x";
    assert OccursAt(mid, sep, 0);
    assert FirstIndex(mid, sep) == Some(0);
    var rest := mid[|sep|..];
    assert rest == "--d" + Crlf + Crlf + "x";
    assert rest[0] != sep[0] && rest[1] != sep[1];
    assert !OccursAt(rest, sep, 0) && !OccursAt(rest, sep, 1);
    assert forall j: nat :: j >= 2 ==> !OccursAt(rest, sep, j);
    assert FirstIndex(rest, sep).None?;
    assert mid[..0] == "";
  }

  /** A part free of the separator is not enough: with boundary `d`, a
      response without headers whose body is `--d` serialises to CRLF `--d`,
      which is shorter than the separator and so cannot hold it; followed
      by the separator it starts with one, and the split of the merged body
      does not give back the parts. */
  lemma SeparatorFreeIsNotEnough()
    ensures var rs := [Response([], "--d"), Response([], "x")];
      && Parts(rs) == [Crlf + "--d", Crlf + "x"]
      && (forall i :: 0 <= i < 2 ==> |Parts(rs)[i]| < |Separator("d")|)
      && Unframe(Merged(rs, "d").body, "d") == Some(["", "--d" + Crlf + Crlf + "x"])
      && Unframe(Merged(rs, "d").body, "d") != Some(Parts(rs))
  {
    var rs := [Response([], "--d"), Response([], "x")];
    CounterexampleParts();
    var mid := Join(Parts(rs), Separator("d"));
    var body := Merged(rs, "d").body;
    assert body == Opening("d") + mid + Closing("d");
    assert body[|Opening("d")|..|body| - |Closing("d")|] == mid;
    CounterexampleSplit();
  }

  /** With no responses the body is the two frames around nothing and the
      sub content type is the default. */
  lemma MergedEmpty(boundary: string)
    ensures Merged([], boundary).body == boundary + "--" + Crlf + Crlf + "--" + boundary + "--"
    ensures Merged([], boundary).headers[1].1 == ContentTypeValue(boundary, DefaultType)
  {
  }

  /** `mergeResponses(responses)`: the headers go into a new `Map` with
      `set`, and the body of the output object is appended to three times. */
  method MergeResponses(responses: seq<Response>, delimiter: string) returns (output: ResponseObject)
    ensures fresh(output)
    ensures output.Value() == Merged(responses, delimiter)
  {
    var crlf := Crlf;
    var headers: seq<(string, string)> := [];
    headers := Set(headers, "Status", "207");
    var subType := NegotiateSubContentType(responses);
    var ct := ContentTypeValue(delimiter, subType);
    headers := Set(headers, "Content-Type", ct);
    output := new ResponseObject(Response(headers, ""));
    var parts: seq<string> := [];
    var i := 0;
    while i < |responses|
      invariant 0 <= i <= |responses|
      invariant parts == Parts(responses)[..i]
      invariant output.Value() == Response(headers, "")
    {
      var part := SerializeResponse(Cleaned(responses[i]));
      parts := parts + [part];
      i := i + 1;
    }
    assert parts == Parts(responses);
    assert subType == Negotiate(responses);
    var opening := delimiter + "--" + crlf;
    var middle := Join(parts, crlf + "--" + delimiter + crlf);
    var closing := crlf + "--" + delimiter + "--";
    assert opening == Opening(delimiter) && closing == Closing(delimiter);
    assert crlf + "--" + delimiter + crlf == Separator(delimiter);
    output.body := output.body + opening;
    assert output.body == opening;
    output.body := output.body + middle;
    output.body := output.body + closing;
  }
}
