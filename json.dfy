/** A parsed JSON value, as the standard json module hands it to the pipeline. */
module JsonValues {

  /** null, booleans, numbers (int and float alike), str, list and dict. */
  datatype Json =
    | Null
    | Bool(b: bool)
    | Num(n: real)
    | Str(s: string)
    | Arr(items: seq<Json>)
    | Obj(fields: map<string, Json>)

  /** Python truthiness: None, False, 0, "", [] and {} are false, everything else is true. */
  predicate Falsy(v: Json): (b: bool)
    ensures v.Str? ==> (b <==> |v.s| == 0)
    ensures v.Arr? ==> (b <==> |v.items| == 0)
    ensures v.Obj? ==> (b <==> |v.fields| == 0)
  {
    match v
    case Null => true
    case Bool(b) => !b
    case Num(n) => n == 0.0
    case Str(s) => s == []
    case Arr(items) => items == []
    case Obj(fields) => fields == map[]
  }

  /** `isinstance(v, list) and all(isinstance(e, str) for e in v)`. */
  predicate IsStringList(v: Json) {
    v.Arr? && forall i :: 0 <= i < |v.items| ==> v.items[i].Str?
  }

  /** Lists and dicts cannot be hashed, so they cannot be looked up in a set. */
  predicate Unhashable(v: Json) {
    v.Arr? || v.Obj?
  }
}
