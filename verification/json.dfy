/** The JSON values stored in `previous_data` / `new_data`, the parts of
    `JSON.stringify` the narrative relies on (section 25.5.2 of ECMA-262),
    and the view of a value as a JavaScript object (`Object.keys`, `v[k]`).

    Numbers are integers. Object members are kept in the order
    `Object.keys` reports them. A property lookup that finds nothing
    (JavaScript `undefined`) is `None`, distinct from `Some(JNull)`. */
module Json {
  import opened Results
  import opened Text
  import Seqs

  datatype Json =
    | JNull
    | JBool(b: bool)
    | JNum(n: int)
    | JStr(s: string)
    | JArr(items: seq<Json>)
    | JObj(members: seq<Member>)

  datatype Member = Member(key: string, value: Json)

  function HexDigit(d: nat): (c: char)
    requires d < 16
  {
    if d < 10 then DigitChar(d) else ('a' as int + d - 10) as char
  }

  /** How `JSON.stringify` writes one character inside a string literal:
      the two-character escapes, `\u00xx` with lower-case hex for the other
      control characters, and the character itself otherwise. */
  function EscapeChar(c: char): (r: string)
    ensures |r| > 0 && r[0] != '"'
  {
    if c == '"' then "\\\""
    else if c == '\\' then "\\\\"
    else if c == '\U{08}' then "\\b"
    else if c == '\t' then "\\t"
    else if c == '\n' then "\\n"
    else if c == '\U{0C}' then "\\f"
    else if c == '\r' then "\\r"
    else if (c as int) < 0x20 then "\\u00" + [HexDigit(c as int / 16), HexDigit(c as int % 16)]
    else [c]
  }

  function Escape(s: string): (r: string)
    ensures |s| > 0 ==> |r| > 0 && r[0] != '"'
  {
    if |s| == 0 then "" else EscapeChar(s[0]) + Escape(s[1..])
  }

  /** `JSON.stringify` of a string. */
  function Quote(s: string): string {
    "\"" + Escape(s) + "\""
  }

  /** `JSON.stringify(v)` for a value (no indentation). The first character
      already tells which kind of value was written. */
  function Stringify(v: Json): (r: string)
    ensures |r| > 0
    ensures v.JNull? <==> r[0] == 'n'
    ensures v.JBool? <==> r[0] == 't' || r[0] == 'f'
    ensures v.JNum? <==> r[0] == '-' || IsDigit(r[0])
    ensures v.JStr? <==> r[0] == '"'
    ensures v.JArr? <==> r[0] == '['
    ensures v.JObj? <==> r[0] == '{'
  {
    match v
    case JNull => "null"
    case JBool(b) => if b then "true" else "false"
    case JNum(n) => IntToDecimal(n)
    case JStr(s) => Quote(s)
    case JArr(items) => "[" + StringifyItems(items) + "]"
    case JObj(members) => "{" + StringifyMembers(members) + "}"
  }

  function StringifyItems(items: seq<Json>): string {
    if |items| == 0 then ""
    else if |items| == 1 then Stringify(items[0])
    else Stringify(items[0]) + "," + StringifyItems(items[1..])
  }

  function StringifyMembers(members: seq<Member>): string {
    if |members| == 0 then ""
    else
      var head := Quote(members[0].key) + ":" + Stringify(members[0].value);
      if |members| == 1 then head else head + "," + StringifyMembers(members[1..])
  }

  /** `!!v && typeof v === 'object'`: the value has own keys to enumerate. */
  predicate IsObjectLike(v: Json) {
    v.JObj? || v.JArr?
  }

  /** `Object.keys(v)`: member names of an object, decimal indices of an
      array, nothing for any other value. */
  function Keys(v: Json): (r: seq<string>)
    ensures v.JObj? ==> |r| == |v.members|
    ensures v.JArr? ==> |r| == |v.items|
    ensures !IsObjectLike(v) ==> r == []
  {
    match v
    case JObj(members) => seq(|members|, i requires 0 <= i < |members| => members[i].key)
    case JArr(items) => seq(|items|, i requires 0 <= i < |items| => NatToDecimal(i))
    case _ => []
  }

  /** The values `Object.keys(v)` pairs with its keys, position by position. */
  function Values(v: Json): (r: seq<Json>)
    ensures |r| == |Keys(v)|
  {
    match v
    case JObj(members) => seq(|members|, i requires 0 <= i < |members| => members[i].value)
    case JArr(items) => items
    case _ => []
  }

  /** `v[k]`: the value stored under an own key, `None` (undefined) when
      there is none. An array also answers its own `length` property, which
      `Object.keys` does not list. An object with a repeated key is read at
      its first occurrence. */
  function Get(v: Json, k: string): (r: Option<Json>)
    ensures k in Keys(v) ==> r.Some?
    ensures v.JArr? && k == "length" ==> r == Some(JNum(|v.items|))
    ensures r.Some? <==> k in Keys(v) || (v.JArr? && k == "length")
  {
    var ks := Keys(v);
    if k in ks then Some(Values(v)[Seqs.IndexOf(ks, k)])
    else if v.JArr? && k == "length" then Some(JNum(|v.items|))
    else None
  }

  /** No key occurs twice in `Object.keys(v)`. Every value JavaScript holds
      has this property: `JSON.parse` and object literals keep one value per
      key, and array indices are distinct (`ArrayKeysDistinct`). */
  predicate DistinctKeys(v: Json) {
    Seqs.Distinct(Keys(v))
  }

  /** Array indices are distinct keys, so an array never has a repeated key. */
  lemma ArrayKeysDistinct(items: seq<Json>)
    ensures DistinctKeys(JArr(items))
  {
    var ks := Keys(JArr(items));
    forall i, j | 0 <= i < j < |ks| ensures ks[i] != ks[j] {
      NatToDecimalInjective(i, j);
    }
  }

  /** `formatValue` of the field-change renderer: `null` for null and
      undefined, a string between double quotes without escaping, and the
      `JSON.stringify` text of every other value. */
  function FormatValue(v: Option<Json>): (r: string)
    ensures v.None? || v == Some(JNull) ==> r == "null"
    ensures v.Some? && v.value.JStr? ==> r == "\"" + v.value.s + "\""
    ensures v.Some? && !v.value.JStr? ==> r == Stringify(v.value)
  {
    match v
    case None => "null"
    case Some(JNull) => "null"
    case Some(JStr(s)) => "\"" + s + "\""
    case Some(JBool(b)) => if b then "true" else "false"
    case Some(JNum(n)) => IntToDecimal(n)
    case Some(other) => Stringify(other)
  }

  /** `JSON.stringify(a) === JSON.stringify(b)` for two property reads, where
      `JSON.stringify(undefined)` is `undefined` itself. */
  predicate SameSerialization(a: Option<Json>, b: Option<Json>) {
    match (a, b)
    case (None, None) => true
    case (Some(x), Some(y)) => Stringify(x) == Stringify(y)
    case _ => false
  }
}
