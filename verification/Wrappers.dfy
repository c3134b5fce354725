// A value or its absence.
module Wrappers {

  datatype Option<T> = Some(value: T) | None
}
