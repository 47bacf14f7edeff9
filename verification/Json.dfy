/** JSON documents as values: what a tree of cJSON items says, without the list pointers that hold it together. */
module Json {
  import opened Bytes

  /** A list node's key (the item's `string`) together with what the node carries. */
  datatype Keyed<T> = Keyed(key: Text, value: T)

  /** `Invalid` is the empty item that removing a whole document leaves behind; it is neither parsed nor printed. */
  datatype Value =
    | Invalid
    | Null
    | Bool(b: bool)
    | Number(n: int)
    | Str(s: Text)
    | Array(items: seq<Value>)
    | Object(members: seq<Keyed<Value>>)

  const INT_MAX: int := 0x7fff_ffff
  const INT_MIN: int := -0x8000_0000

  /** `CJSON_NESTING_LIMIT`. */
  const NESTING_LIMIT: nat := 1000

  /** Strings are C strings and numbers are C ints. */
  predicate Representable(v: Value) {
    match v
    case Invalid => false
    case Null => true
    case Bool(_) => true
    case Number(n) => INT_MIN <= n <= INT_MAX
    case Str(s) => NulFree(s)
    case Array(items) => forall i :: 0 <= i < |items| ==> Representable(items[i])
    case Object(ms) => forall i :: 0 <= i < |ms| ==> NulFree(ms[i].key) && Representable(ms[i].value)
  }

  /** How many containers enclose the innermost value, counting `v` itself. */
  function Nesting(v: Value): nat
    decreases v
  {
    match v
    case Array(items) => 1 + NestingOfItems(items)
    case Object(ms) => 1 + NestingOfMembers(ms)
    case _ => 0
  }

  function NestingOfItems(items: seq<Value>): nat
    decreases items
  {
    if items == [] then 0 else Max(Nesting(items[0]), NestingOfItems(items[1..]))
  }

  function NestingOfMembers(ms: seq<Keyed<Value>>): nat
    decreases ms
  {
    if ms == [] then 0 else Max(Nesting(ms[0].value), NestingOfMembers(ms[1..]))
  }

  function Max(a: nat, b: nat): nat {
    if a < b then b else a
  }

  // ---------------------------------------------------------------------------------------------
  // Positions in a document. In a tree that shares no nodes, the path of child numbers from the root says which node
  // is meant, as a pointer to the node does.
  // ---------------------------------------------------------------------------------------------

  type Path = seq<nat>

  function Children(v: Value): nat {
    match v
    case Array(items) => |items|
    case Object(ms) => |ms|
    case _ => 0
  }

  function Child(v: Value, i: nat): (c: Value)
    requires i < Children(v)
    ensures c < v
  {
    match v
    case Array(items) => items[i]
    case Object(ms) => ms[i].value
  }

  function WithChild(v: Value, i: nat, w: Value): Value
    requires i < Children(v)
  {
    match v
    case Array(items) => Array(items[i := w])
    case Object(ms) => Object(ms[i := Keyed(ms[i].key, w)])
  }

  predicate ValidPath(v: Value, path: Path) {
    path == [] || (path[0] < Children(v) && ValidPath(Child(v, path[0]), path[1..]))
  }

  function GetAt(v: Value, path: Path): Value
    requires ValidPath(v, path)
  {
    if path == [] then v else GetAt(Child(v, path[0]), path[1..])
  }

  function SetAt(v: Value, path: Path, w: Value): Value
    requires ValidPath(v, path)
  {
    if path == [] then w else WithChild(v, path[0], SetAt(Child(v, path[0]), path[1..], w))
  }

  predicate DistinctKeys(ms: seq<Keyed<Value>>) {
    forall i, j :: 0 <= i < j < |ms| ==> ms[i].key != ms[j].key
  }

  /** No object of the document has two members of the same name. */
  predicate Proper(v: Value) {
    match v
    case Array(items) => forall i :: 0 <= i < |items| ==> Proper(items[i])
    case Object(ms) => DistinctKeys(ms) && forall i :: 0 <= i < |ms| ==> Proper(ms[i].value)
    case _ => true
  }
}
