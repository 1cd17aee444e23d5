/** Small value types shared by every part of the model. */
module Prelude {

  /** A nullable value: a column or argument that may be None. */
  datatype Option<+T> = None | Some(value: T)

  /** A field of a partial-update schema: either left unset by the client or set explicitly. */
  datatype Maybe<+T> = Unset | Set(value: T)

  /** Primary keys. The store hands them out fresh; the model does not look inside a UUID. */
  type Id = nat

  /** Timestamps, as read from the database clock. */
  type Time = nat
}
