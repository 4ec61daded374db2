/**
 * JSON values as JavaScript sees them after `JSON.parse`, together with the
 * three pieces of JavaScript semantics the core relies on: truthiness,
 * property access with optional chaining, and `String(x)`.
 *
 * Numbers are modelled as integers (see README, "Left out").
 */
module JsonValues {
  import opened Wrappers

  datatype Json =
    | JNull
    | JBool(b: bool)
    | JNum(n: int)
    | JStr(s: string)
    | JArr(items: seq<Json>)
    | JObj(fields: map<string, Json>)

  /** JavaScript truthiness of a JSON value. */
  predicate Truthy(v: Json) {
    match v
    case JNull => false
    case JBool(b) => b
    case JNum(n) => n != 0
    case JStr(s) => s != ""
    case JArr(_) => true
    case JObj(_) => true
  }

  /** Truthiness of a possibly `undefined` value (None is `undefined`). */
  predicate Defined(o: Option<Json>) {
    o.Some? && Truthy(o.value)
  }

  /** `null` or `undefined`: what `??` skips. */
  predicate Nullish(o: Option<Json>) {
    o.None? || o.value == JNull
  }

  /**
   * `v.key` (or `v[key]`). Only own keys of parsed objects are visible: the
   * keys this model reads are never built-in properties of strings, arrays
   * or `Object.prototype`, so every other kind of value gives `undefined`.
   */
  function Get(v: Json, key: string): (r: Option<Json>)
    ensures r.Some? <==> v.JObj? && key in v.fields
    ensures r.Some? ==> r.value == v.fields[key]
  {
    match v
    case JObj(m) => if key in m then Some(m[key]) else None
    case _ => None
  }

  /** One step of an optional-chaining path: `?.key` or `?.[i]`. */
  datatype Step = Key(name: string) | Index(i: nat)

  /** `v[i]`: an array element, a one-character string, or the key "i" of an object. */
  function IndexInto(v: Json, i: nat): Option<Json> {
    match v
    case JArr(items) => if i < |items| then Some(items[i]) else None
    case JStr(s) => if i < |s| then Some(JStr([s[i]])) else None
    case JObj(m) => var k := NatToDecimal(i); if k in m then Some(m[k]) else None
    case _ => None
  }

  /**
   * `v?.s1?.s2...`: undefined or null anywhere along the path short-circuits
   * to `undefined`; a missing property is `undefined` too.
   */
  function At(v: Option<Json>, path: seq<Step>): (r: Option<Json>)
    ensures Nullish(v) && path != [] ==> r.None?
    ensures path == [] ==> r == v
    decreases |path|
  {
    if path == [] then v
    else if Nullish(v) then None
    else
      var next := match path[0]
        case Key(k) => Get(v.value, k)
        case Index(i) => IndexInto(v.value, i);
      At(next, path[1..])
  }

  /** Following a path in two parts is following it whole. */
  lemma {:induction false} AtConcat(v: Option<Json>, p: seq<Step>, q: seq<Step>)
    ensures At(v, p + q) == At(At(v, p), q)
    decreases |p|
  {
    if p == [] {
      assert p + q == q;
    } else if Nullish(v) {
      assert (p + q) != [];
    } else {
      assert (p + q)[0] == p[0] && (p + q)[1..] == p[1..] + q;
      var next := match p[0]
        case Key(k) => Get(v.value, k)
        case Index(i) => IndexInto(v.value, i);
      AtConcat(next, p[1..], q);
    }
  }

  function DigitChar(d: nat): char
    requires d < 10
  {
    "0123456789"[d]
  }

  /** Decimal digits of a natural number, most significant first. */
  function NatToDecimal(n: nat): (r: string)
    ensures |r| > 0
    ensures forall k :: 0 <= k < |r| ==> '0' <= r[k] <= '9'
  {
    if n < 10 then [DigitChar(n)] else NatToDecimal(n / 10) + [DigitChar(n % 10)]
  }

  /** `String(n)` for an integer-valued number. */
  function IntToDecimal(n: int): (r: string)
    ensures |r| > 0
  {
    if n < 0 then "-" + NatToDecimal(-n) else NatToDecimal(n)
  }

  /** `ss.join(",")`. */
  function JoinComma(ss: seq<string>): string {
    if ss == [] then ""
    else if |ss| == 1 then ss[0]
    else ss[0] + "," + JoinComma(ss[1..])
  }

  /**
   * Whether JavaScript `String(v)` returns at all. Parsed values carry no
   * functions, so an object with its own "toString" key hides the inherited
   * method behind a value that cannot be called, and `valueOf` then gives
   * back the object itself: the conversion throws a TypeError. An array is
   * converted element by element, so it throws when one of them does.
   */
  predicate Stringable(v: Json)
    decreases v
  {
    match v
    case JObj(m) => "toString" !in m
    case JArr(items) => forall i :: 0 <= i < |items| ==> Stringable(items[i])
    case _ => true
  }

  /**
   * The text `String(v)` produces when it returns: strings are themselves,
   * `null` is "null", arrays are joined with "," (their null elements
   * becoming ""), and an object is "[object Object]".
   */
  function StringOf(v: Json): (r: string)
    ensures v.JStr? ==> r == v.s
    decreases v
  {
    match v
    case JNull => "null"
    case JBool(b) => if b then "true" else "false"
    case JNum(n) => IntToDecimal(n)
    case JStr(s) => s
    case JArr(items) =>
      JoinComma(seq(|items|, i requires 0 <= i < |items| =>
        if items[i] == JNull then "" else StringOf(items[i])))
    case JObj(_) => "[object Object]"
  }

  /** JavaScript `String(v)`: None when it throws. */
  function ToStr(v: Json): (r: Option<string>)
    ensures r.Some? <==> Stringable(v)
    ensures v.JStr? ==> r == Some(v.s)
    ensures v.JObj? ==> (r.None? <==> "toString" in v.fields)
    ensures v.JObj? && r.Some? ==> r.value == "[object Object]"
  {
    if Stringable(v) then Some(StringOf(v)) else None
  }
}
