/** JSON as the services use it: what json.Unmarshal gives for a text, with the parser itself
    left abstract (a JsonReader is any function from bytes to documents). */
module Json {
  import opened Base64

  datatype JsonValue = JNull | JString(text: string) | JArray(items: seq<JsonValue>) | JOther

  /** json.Unmarshal into a map[string]any: an error, or the fields. The text `null` leaves the
      map nil without an error, which reads like a document without fields. */
  datatype JsonDoc = Malformed | Document(fields: map<string, JsonValue>)

  type JsonReader = Bytes -> JsonDoc

  /** `h[field] != nil` on a map[string]any. */
  predicate HasNonNull(doc: JsonDoc, field: string) {
    doc.Document? && field in doc.fields && !doc.fields[field].JNull?
  }

  /** `_, ok := h[field]`. */
  predicate HasKey(doc: JsonDoc, field: string) {
    doc.Document? && field in doc.fields
  }
}
