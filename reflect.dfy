/**
 * What the decoder learns about a destination type through Go's reflection:
 * the kind of the type and, for a struct, its fields in declaration order
 * with the value of each field's `json` struct tag.
 */
module Reflect {
  import opened Base

  /** A struct field: its Go name and `field.Tag.Get("json")` (empty when absent). */
  datatype Field = Field(name: Bytes, jsonTag: Bytes)

  /** A destination type. Two types are equal when their names and their fields are. */
  datatype Type = Struct(name: Bytes, fields: seq<Field>) | NonStruct(name: Bytes)

  /**
   * The name under which a field appears in a JSON document: the part of a
   * non-empty `json` tag before its first comma (the whole tag when it has
   * none), and the Go field name when the tag is empty.
   */
  function WireName(f: Field): (r: Bytes)
    ensures f.jsonTag == [] ==> r == f.name
    ensures f.jsonTag != [] ==> r <= f.jsonTag && Comma !in r
    ensures f.jsonTag != [] && r != f.jsonTag ==> f.jsonTag[|r|] == Comma
    ensures f.jsonTag != [] && Comma !in f.jsonTag ==> r == f.jsonTag
    ensures f.jsonTag != [] && f.jsonTag[0] == Comma ==> r == []
  {
    if f.jsonTag != [] then
      var comma := IndexByte(f.jsonTag, Comma);
      if comma != -1 then f.jsonTag[..comma] else f.jsonTag
    else
      f.name
  }
}
