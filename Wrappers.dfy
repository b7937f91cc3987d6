/** A nullable value: C#'s `string?` and the nullable links of a listing response. */
module Wrappers {

  datatype Option<+T> = None | Some(value: T)
}
