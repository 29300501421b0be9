/**
 The untyped tree that a JSON text parses into and that the printer renders:
 the model's stand-in for serde_json's `Value`.
 */
module WireFormat {

  /** A JSON number, kept as its literal text; converting it is left to the library. */
  datatype Number = Number(literal: string)

  datatype Wire =
    | Null
    | Bool(b: bool)
    | Num(n: Number)
    | Str(s: string)
    | Arr(items: seq<Wire>)
    | Obj(members: map<string, Wire>)

  /**
   A whole document as a reader into a map of entries sees it: the members
   of its top-level object in text order, duplicate keys included, or a
   document that is well-formed JSON but not an object.
   */
  datatype TopLevel =
    | Members(members: seq<(string, Wire)>)
    | NotAnObject

  /** A tree made only of booleans, strings and objects: no null, number or array anywhere. */
  predicate StringTree(w: Wire)
    decreases w
  {
    match w
    case Bool(_) => true
    case Str(_) => true
    case Obj(m) => forall k :: k in m ==> StringTree(m[k])
    case _ => false
  }
}
