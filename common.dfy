/** Shared vocabulary of the backend: optional request fields, document ids and the
    kinds of HTTP answer a handler gives. */
module Common {

  datatype Option<+T> = None | Some(value: T)

  /** Document identifiers (MongoDB ObjectIds) are opaque strings. */
  type Id = string

  /** The answers a handler gives: 200, 201, 400, 404 and 500 (a thrown error caught
      by the handler's catch block, e.g. a schema validation failure on save). */
  datatype Status = Ok | Created | BadRequest | NotFound | ServerError

  /** JavaScript truthiness of an optional string field of a request body:
      `undefined` and `''` are falsy, every other string is truthy. */
  predicate Truthy(o: Option<string>) {
    o.Some? && o.value != ""
  }

  /** JavaScript truthiness of an optional number (`undefined` and `0` are falsy). */
  predicate TruthyInt(o: Option<int>) {
    o.Some? && o.value != 0
  }

  /** `value || fallback` for an optional string field. */
  function OrElse(o: Option<string>, fallback: string): (r: string)
    ensures Truthy(o) ==> r == o.value
    ensures !Truthy(o) ==> r == fallback
  {
    if Truthy(o) then o.value else fallback
  }
}
