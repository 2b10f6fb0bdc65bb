/** The values `json.loads` produces, and what a call to it can end in. */
module Json {

  /** A decoded JSON document: Python's None, bool, int/float, str, list and dict. */
  datatype JValue =
    | JNull
    | JBool(b: bool)
    | JNumber(n: real)
    | JString(s: string)
    | JArray(items: seq<JValue>)
    | JObject(fields: map<string, JValue>)

  /** One call of the JSON decoder: a value, a `json.JSONDecodeError` with its
      message, or any other exception with its message. */
  datatype DecodeResult =
    | Decoded(value: JValue)
    | DecodeError(message: string)
    | OtherError(message: string)
}
