/** JSON values as `json.load` produces them, and the dictionary lookup
    `d.get(k, None)` that every test in the converter is built on. */
module Json {

  /** A parsed JSON value. Numbers keep the int/float distinction of the
      parser; the converter only copies them, so a float is held as an exact
      real. */
  datatype Value =
    | Null
    | Bool(b: bool)
    | Int(i: int)
    | Float(f: real)
    | Str(s: string)
    | Arr(items: seq<Value>)
    | Obj(fields: map<string, Value>)

  /** `d.get(k, None)`: a missing key reads as `null`. */
  function Lookup(d: map<string, Value>, k: string): (v: Value)
    ensures k !in d ==> v == Null
    ensures v != Null ==> k in d && d[k] == v
  {
    if k in d then d[k] else Null
  }

  /** `d.get(k, None) is not None`: the key is there and does not hold `null`.
      Falsy values (`0`, `""`, `false`, `[]`) are present. */
  predicate Present(d: map<string, Value>, k: string)
  {
    Lookup(d, k) != Null
  }
}
