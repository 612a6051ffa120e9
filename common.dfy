/** Shared vocabulary of the model: an optional value and the identifiers the
    document store assigns to user documents. */
module Common {

  /** A value that may be missing: an unset reference, a document that a
      lookup did not find. */
  datatype Option<+T> = None | Some(value: T)

  /** Identifier of a user document. The store hands them out in creation
      order; nothing else about their representation matters here. */
  type UserId = nat
}
