/**
 * The decoded knowledge-base tree that ShrineData keeps in `effects`.
 * json.h is not part of this model: the accessors below assume that
 * indexing outside an array or past its end yields a null value, that
 * getString of a non-string is "" and that getInteger of a non-integer is 0.
 */
module Json {

  datatype Value =
    | Null
    | Int(n: int)
    | Str(s: string)
    | Array(items: seq<Value>)

  /** length(): the number of elements of an array, 0 otherwise. */
  function Length(v: Value): nat {
    if v.Array? then |v.items| else 0
  }

  /** v[k] */
  function At(v: Value, k: nat): (e: Value)
    ensures k < Length(v) ==> e == v.items[k]
    ensures k >= Length(v) ==> e == Null
  {
    if v.Array? && k < |v.items| then v.items[k] else Null
  }

  /** getString() */
  function GetString(v: Value): string {
    if v.Str? then v.s else ""
  }

  /** getInteger() */
  function GetInteger(v: Value): int {
    if v.Int? then v.n else 0
  }
}
