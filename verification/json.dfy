/**
 * A JSON document as Python's `json.load` hands it over. Parsing itself is
 * not modelled: wherever a script parses text, the model takes a parsing
 * function (`string -> Option<Json>`) or an already parsed file as input.
 */
module JsonValue {
  import opened Wrappers

  /** Object members are a map: Python dict order is not modelled. Numbers are kept as integers. */
  datatype Json =
    | JNull
    | JBool(b: bool)
    | JNumber(n: int)
    | JString(s: string)
    | JArray(items: seq<Json>)
    | JObject(fields: map<string, Json>)

  /** One directory entry: its name and its content, `None` when the content is not valid JSON. */
  datatype FileEntry = FileEntry(name: string, content: Option<Json>)
}
