/** Values shared by every component: optional values, results, and the
    error kinds the services raise (NestJS exceptions in the original). */
module Common {

  datatype Option<+T> = None | Some(value: T)

  /** The error kinds the core raises. `NotFound` carries the entity name and
      the id that appear in the message "<entity> with ID <id> not found". */
  datatype Error =
    | NotFound(entity: string, id: int)
    | Conflict(message: string)
    | Unauthorized(message: string)
    | ValidationFailure(fields: set<string>)

  datatype Result<+T> = Ok(value: T) | Err(error: Error)

  /** A property value of a JSON request body, as far as the validators tell
      values apart: a string, an integer, `null`, or anything else (a
      boolean, an array, an object). */
  datatype Json = JString(s: string) | JNumber(n: int) | JNull | JOther

  /** A JSON request body: the properties it carries. */
  type Body = map<string, Json>

  /** `@IsOptional()`: a property that is absent or `null` skips the other
      checks on it. */
  predicate Omitted(body: Body, name: string) {
    name !in body || body[name] == JNull
  }

  /** JavaScript truthiness of an optional number: `undefined` and `0` are falsy. */
  predicate TruthyInt(x: Option<int>) {
    x.Some? && x.value != 0
  }

  /** JavaScript truthiness of an optional string: `undefined` and `""` are falsy. */
  predicate TruthyString(x: Option<string>) {
    x.Some? && x.value != ""
  }
}
