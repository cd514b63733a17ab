/** JSON values as JavaScript sees them after `JSON.parse`, the few JavaScript
    operators the core applies to them (`typeof`, truthiness, `String(x)`), and
    the foreign JSON libraries, which the model takes as parameters. */
module Json {
  import opened Wrappers

  /** A parsed JSON value. A number is kept as the text JavaScript's
      `String(n)` renders it as (so `-0` and `0` are both "0"), since the core
      only ever turns numbers back into text. Object members keep their order. */
  datatype Json =
    | JNull
    | JBool(b: bool)
    | JNum(text: string)
    | JStr(s: string)
    | JArr(items: seq<Json>)
    | JObj(members: seq<(string, Json)>)

  /** JavaScript's `typeof` on a parsed JSON value. */
  function TypeOf(j: Json): (t: string)
    ensures t == "object" <==> (j.JNull? || j.JArr? || j.JObj?)
  {
    match j
    case JNull => "object"
    case JBool(_) => "boolean"
    case JNum(_) => "number"
    case JStr(_) => "string"
    case JArr(_) => "object"
    case JObj(_) => "object"
  }

  /** JavaScript truthiness: `null`, `false`, `0` and `""` are falsy,
      every array and object is truthy. */
  predicate Truthy(j: Json) {
    match j
    case JNull => false
    case JBool(b) => b
    case JNum(t) => t != "0"
    case JStr(s) => s != ""
    case JArr(_) => true
    case JObj(_) => true
  }

  /** A value the token engine accepts as a replacement: a string or a number. */
  predicate IsScalar(j: Json) {
    j.JStr? || j.JNum?
  }

  /** The text a replacement value is substituted as (`String.prototype.replace`
      turns a number into its `String(n)` text). */
  function ScalarText(j: Json): string
    requires IsScalar(j)
  {
    if j.JStr? then j.s else j.text
  }

  /** JavaScript's `String(x)`: an array joins its elements' texts with ","
      (a `null` element gives ""), an object is "[object Object]". */
  function ToJsString(j: Json): string
    decreases j, 1
  {
    match j
    case JNull => "null"
    case JBool(b) => if b then "true" else "false"
    case JNum(t) => t
    case JStr(s) => s
    case JArr(items) => JoinedItems(j, items)
    case JObj(_) => "[object Object]"
  }

  /** Helper of ToJsString: `items.join(",")` for the elements of array `parent`. */
  function JoinedItems(parent: Json, items: seq<Json>): string
    requires forall i :: 0 <= i < |items| ==> items[i] < parent
    decreases parent, 0, |items|
  {
    if |items| == 0 then ""
    else
      var first := if items[0].JNull? then "" else ToJsString(items[0]);
      if |items| == 1 then first else first + "," + JoinedItems(parent, items[1..])
  }

  /** The foreign JSON libraries the core calls: `JSON.stringify`, `JSON.parse`
      (None when it throws a SyntaxError) and `jsonpath.query` (None when the
      library throws on the path expression). The model leaves them
      uninterpreted. */
  datatype Codec = Codec(
    stringify: Json -> string,
    parse: string -> Option<Json>,
    query: (Json, string) -> Option<Json>)
}
