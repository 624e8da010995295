/** JSON values: the tree that json_object.c keeps behind its pointers. */
module Json {
  import opened Bytes

  // A NULL pointer is the value Null. A double is kept as the literal it was
  // scanned from.
  datatype Value =
    | Null
    | Bool(b: bool)
    | Int(i: Int32)
    | Double(literal: bytes)
    | String(s: bytes)
    | Array(elems: seq<Value>)
    | Object(fields: seq<(bytes, Value)>)
}
