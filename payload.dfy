// The preemption notification payload and what Go's json.Unmarshal makes of it.
//
// The JSON grammar itself is not modelled: a payload arrives already decoded
// into a JsonDecode, which records only what the decoder leaves behind in the
// gceInstanceInfo struct and whether it reported an error.

module Payload {

  datatype Option<+T> = None | Some(value: T) {
    function GetOr(default: T): T {
      match this
      case Some(v) => v
      case None => default
    }
  }

  /** The gceInstanceInfo struct: the instance a notification names. */
  datatype GceInstanceInfo = GceInstanceInfo(name: string, zone: string)

  /** The errors json.Unmarshal can report for this payload. */
  datatype JsonError =
    | SyntaxError    // the bytes are not JSON at all
    | TypeMismatch   // JSON, but a value of the wrong type for the struct (a number for "name", an array at top level, ...)

  /**
   * An abstract decoding of the raw message bytes.
   * Malformed: not JSON; json.Unmarshal checks the whole input before it
   *   writes anything, so the struct keeps its zero value.
   * Decoded: JSON; name and zone are the string values the decoder stored
   *   (None when the key is absent, null, or of the wrong type), and
   *   typeMismatch says whether it reported a type error on the way.
   *   Unknown keys are ignored by the decoder and so do not appear here.
   */
  datatype JsonDecode =
    | Malformed
    | Decoded(name: Option<string>, zone: Option<string>, typeMismatch: bool)

  /** The error value a parse function hands back. */
  datatype ParseError =
    | Json(cause: JsonError)
    | MissingName
    | MissingZone

  /** The pair (parsed, err) that both Go parse functions return. */
  datatype Parsed = Parsed(parsed: GceInstanceInfo, err: Option<ParseError>)

  /** The struct as json.Unmarshal leaves it. */
  function DecodedInfo(message: JsonDecode): GceInstanceInfo {
    match message
    case Malformed => GceInstanceInfo("", "")
    case Decoded(name, zone, _) => GceInstanceInfo(name.GetOr(""), zone.GetOr(""))
  }

  /** The error json.Unmarshal returns. */
  function DecodeError(message: JsonDecode): Option<ParseError> {
    match message
    case Malformed => Some(Json(SyntaxError))
    case Decoded(_, _, typeMismatch) => if typeMismatch then Some(Json(TypeMismatch)) else None
  }

  /**
   * A notification that must be accepted: the decoder reported no error and
   * both mandatory fields carry a non-empty string.
   */
  predicate WellFormed(message: JsonDecode) {
    && message.Decoded?
    && !message.typeMismatch
    && message.name.Some? && message.name.value != ""
    && message.zone.Some? && message.zone.value != ""
  }
}
