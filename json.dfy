/** An already-parsed JSON document, as `json.load` hands it to the
    maintenance scripts. Only the parts a script looks at get their own
    typed fields; everything else about a record is kept, untouched, as
    its remaining fields. */
module Json {

  datatype Option<T> = None | Some(value: T)

  /** `dict.get(key, default)` for a key whose value, when present, is `T`. */
  function GetOr<T>(o: Option<T>, default: T): T {
    match o
    case Some(v) => v
    case None => default
  }

  /** A JSON value (numbers are modelled as integers). */
  datatype Value =
    | Null
    | Bool(b: bool)
    | Number(n: int)
    | Text(s: string)
    | Array(items: seq<Value>)
    | Object(members: seq<(string, Value)>)

  /** The keys of a record that a script never reads or writes. A record
      keeps here only the keys that have no typed field of their own, so
      a `Verse`'s `rest` never holds "number", "numberInSurah" or
      "hizbQuarter", and a `Surah`'s never holds "number" or "ayahs". */
  type Fields = map<string, Value>
}
