/** JSON-like values as the catalog stores them: strings, integers and
    objects. An object is an association list, so the insertion order of a
    Python dict is part of the value. */
module Json {
  import opened Common
  import opened Dict

  datatype Value =
    | Str(s: string)
    | Num(n: int)
    | Obj(fields: seq<(string, Value)>)

  type Field = (string, Value)

  /** Every object nested anywhere inside v is a dict. */
  predicate WellFormed(v: Value) {
    match v
    case Obj(fs) => DistinctKeys(fs) && forall i :: 0 <= i < |fs| ==> WellFormed(fs[i].1)
    case _ => true
  }
}
