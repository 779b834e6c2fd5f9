/** Types shared by the client and the server models. */
module Common {

  /** Every entity is identified by a string id (a cuid in the database). */
  type Id = string

  datatype Option<T> = None | Some(value: T)

  /** The outcome of an awaited remote call: it either threw (network failure, server
      error) or resolved with a value. */
  datatype Response<T> = Threw | Returned(value: T)

  /** JavaScript truthiness of an optional string: defined and not empty. */
  predicate Truthy(s: Option<string>)
  {
    s.Some? && s.value != ""
  }
}
