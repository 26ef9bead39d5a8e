/** Values shared by the server handlers and the client pages. */
module Common {

  datatype Option<+T> = None | Some(value: T)

  /** A member of a JSON request body as the handlers see it: missing
      (`undefined`), `null`, or a string. */
  datatype Field = Absent | Null | Str(s: string)

  /** JavaScript truthiness of a body member: only a non-empty string is truthy. */
  predicate Truthy(f: Field) {
    f.Str? && f.s != ""
  }

  /** What an axios call gives a client page: a 2xx answer carrying the
      envelope's `success` flag and data, or a thrown error carrying the
      server's `message` when there was one. */
  datatype ApiReply<T> = Answered(success: bool, data: T) | Failed(message: Option<string>)

  /** `err.response?.data?.message || fallback`: the server's message when
      there is a non-empty one, the page's own text otherwise. */
  function MessageOr(message: Option<string>, fallback: string): (text: string)
    ensures message.Some? && message.value != "" ==> text == message.value
    ensures (message.None? || message.value == "") ==> text == fallback
  {
    if message.Some? && message.value != "" then message.value else fallback
  }
}
