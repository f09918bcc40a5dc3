/**
 * Decoded JSON as PHP's `json_decode($s, true)` hands it to the core, and the
 * PHP conversions the core applies to such values: `isset`, truthiness,
 * `(int)`, `(string)`, `(array)`, `count` and reading a key with `@$v['k']`.
 */
module PhpValue {
  import opened PhpArray
  import opened PhpString

  /**
   * A decoded JSON value. Numbers are integers (floats are not modelled);
   * objects are PHP arrays with string keys, lists PHP arrays keyed 0..n-1.
   */
  datatype Json =
    | JNull
    | JBool(b: bool)
    | JInt(i: int)
    | JStr(s: string)
    | JList(items: seq<Json>)
    | JObj(members: Arr<string, Json>)

  /** PHP `is_array($v)`. */
  predicate IsArray(v: Json) {
    v.JList? || v.JObj?
  }

  /** PHP `isset($v)`. */
  predicate IsSet(v: Json) {
    !v.JNull?
  }

  /** PHP truthiness (`if ($v)`). */
  predicate Truthy(v: Json) {
    match v
    case JNull => false
    case JBool(b) => b
    case JInt(i) => i != 0
    case JStr(s) => s != "" && s != "0"
    case JList(items) => |items| > 0
    case JObj(m) => |m.keys| > 0
  }

  /**
   * PHP `@$v['k']` for a string key that is not a decimal integer: the member
   * of an object, and null for a missing member or a value that is not an
   * object. (Reading an offset of a string is not modelled and gives null.)
   */
  function Lookup(v: Json, key: string): Json
  {
    if v.JObj? && key in v.members.vals then v.members.vals[key] else JNull
  }

  /** PHP `(int) $v`. */
  function IntOf(v: Json): int
  {
    match v
    case JNull => 0
    case JBool(b) => if b then 1 else 0
    case JInt(i) => i
    case JStr(s) => IntCast(s)
    case JList(items) => if |items| == 0 then 0 else 1
    case JObj(m) => if |m.keys| == 0 then 0 else 1
  }

  /** PHP `(string) $v`; arrays become "Array". */
  function StringOf(v: Json): string
  {
    match v
    case JNull => ""
    case JBool(b) => if b then "1" else ""
    case JInt(i) => IntToString(i)
    case JStr(s) => s
    case JList(_) => "Array"
    case JObj(_) => "Array"
  }

  /** The entries of a list as a PHP array: keys "0", "1", ... in order. */
  function ListEntries(items: seq<Json>, from: nat, acc: Arr<string, Json>): (r: Arr<string, Json>)
    requires acc.Valid()
    requires from <= |items|
    ensures r.Valid()
    decreases |items| - from
  {
    if from == |items| then acc else ListEntries(items, from + 1, acc.Put(IntToString(from), items[from]))
  }

  /**
   * PHP `(array) $v`: null gives `[]`, an array stays itself, any other value
   * becomes the one-element array `[0 => $v]`.
   */
  function ArrayCast(v: Json): (r: Arr<string, Json>)
    ensures r.Valid()
    ensures v.JNull? ==> r.keys == []
    ensures !IsArray(v) && !v.JNull? ==> r.keys == ["0"] && r.vals == map["0" := v]
  {
    match v
    case JNull => Empty()
    case JObj(m) => if m.Valid() then m else Empty()
    case JList(items) => ListEntries(items, 0, Empty())
    case _ => Empty<string, Json>().Put("0", v)
  }

  /** The values `foreach ($v as $x)` visits when `$v` is an array. */
  function Elements(v: Json): seq<Json>
    requires IsArray(v)
  {
    match v
    case JList(items) => items
    case JObj(m) => if m.Valid() then m.Values() else []
  }
}
