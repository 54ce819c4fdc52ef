/**
 * The slice of JavaScript that value coercion relies on: the values an
 * Airtable record can hold, `toString`, reading the `email` property, and
 * `Array.prototype.join`.  A throwing operation returns `Failure`.
 */
module JsValues {
  import opened Wrappers

  /**
   * A JavaScript value as Airtable's records API delivers it.  A number
   * carries the text its `toString` gives: number formatting is not modelled.
   */
  datatype Value =
    | Undefined
    | Null
    | Boolean(b: bool)
    | Number(text: string)
    | Str(s: string)
    | Array(items: seq<Value>)
    | Object(props: map<string, Value>)
  {
    predicate IsNullish() { this == Undefined || this == Null }
  }

  /** The TypeError a JavaScript operation throws. */
  datatype TypeError =
    | ReadOfNullish(property: string)   // reading a property of undefined or null
    | NotAFunction(name: string)      // calling a method the value does not have

  /** `parts.join(sep)`: the parts with `sep` between neighbours. */
  function Join(parts: seq<string>, sep: string): string {
    if |parts| == 0 then ""
    else if |parts| == 1 then parts[0]
    else parts[0] + sep + Join(parts[1..], sep)
  }

  /**
   * `String(v)` as `join` applies it to an array element: undefined and null
   * give the empty string, an array joins its own elements with ",", and a
   * plain object gives "[object Object]".
   */
  function Text(v: Value): string
    decreases v
  {
    match v
    case Undefined => ""
    case Null => ""
    case Boolean(b) => if b then "true" else "false"
    case Number(t) => t
    case Str(s) => s
    case Array(items) => Join(seq(|items|, i requires 0 <= i < |items| => Text(items[i])), ",")
    case Object(_) => "[object Object]"
  }

  /** `v.toString()`: throws on undefined and null, otherwise `Text(v)`. */
  function ToString(v: Value): Result<string, TypeError>
  {
    if v.IsNullish() then Failure(ReadOfNullish("toString")) else Success(Text(v))
  }

  /**
   * `v.email`: throws on undefined and null; an object gives its "email"
   * entry or undefined; every other value has no such property.
   */
  function Email(v: Value): Result<Value, TypeError>
  {
    match v
    case Undefined => Failure(ReadOfNullish("email"))
    case Null => Failure(ReadOfNullish("email"))
    case Object(props) => Success(if "email" in props then props["email"] else Undefined)
    case _ => Success(Undefined)
  }

  /** `items.map(e => e.email)`: throws at the first undefined or null item. */
  function Emails(items: seq<Value>): (r: Result<seq<Value>, TypeError>)
    ensures r.Failure? <==> exists i :: 0 <= i < |items| && items[i].IsNullish()
    ensures r.Success? ==> |r.value| == |items|
    ensures r.Success? ==> forall i :: 0 <= i < |items| ==> Email(items[i]) == Success(r.value[i])
  {
    if items == [] then Success([])
    else match (Email(items[0]), Emails(items[1..]))
      case (Failure(e), _) => Failure(e)
      case (_, Failure(e)) => Failure(e)
      case (Success(v), Success(rest)) => Success([v] + rest)
  }

  /** `s.split(sep)` for a one-character separator. */
  function Split(s: string, sep: char): (r: seq<string>)
    ensures |r| > 0
    ensures forall i :: 0 <= i < |r| ==> sep !in r[i]
  {
    if s == [] then [""]
    else if s[0] == sep then [""] + Split(s[1..], sep)
    else var rest := Split(s[1..], sep); [[s[0]] + rest[0]] + rest[1..]
  }

  lemma {:induction false} SplitNoSep(s: string, sep: char)
    requires sep !in s
    ensures Split(s, sep) == [s]
  {
    if s != [] {
      assert sep !in s[1..];
      SplitNoSep(s[1..], sep);
      assert [s[0]] + s[1..] == s;
    }
  }

  lemma {:induction false} SplitAfterPart(part: string, rest: string, sep: char)
    requires sep !in part
    ensures Split(part + [sep] + rest, sep) == [part] + Split(rest, sep)
  {
    if part == [] {
      assert part + [sep] + rest == [sep] + rest;
      assert ([sep] + rest)[1..] == rest;
    } else {
      var whole := part + [sep] + rest;
      assert whole[0] == part[0] && whole[1..] == part[1..] + [sep] + rest;
      assert sep !in part[1..];
      SplitAfterPart(part[1..], rest, sep);
      assert [part[0]] + part[1..] == part;
    }
  }

  /**
   * Joining parts that do not contain the separator keeps them apart and in
   * order: splitting the result gives them back.
   */
  lemma {:induction false} SplitJoin(parts: seq<string>, sep: char)
    requires |parts| > 0
    requires forall i :: 0 <= i < |parts| ==> sep !in parts[i]
    ensures Split(Join(parts, [sep]), sep) == parts
  {
    if |parts| == 1 {
      SplitNoSep(parts[0], sep);
    } else {
      var rest := Join(parts[1..], [sep]);
      assert Join(parts, [sep]) == parts[0] + [sep] + rest;
      SplitJoin(parts[1..], sep);
      SplitAfterPart(parts[0], rest, sep);
      assert [parts[0]] + parts[1..] == parts;
    }
  }

}
