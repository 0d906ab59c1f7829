/** The optional value used for the component's nullable state fields. */
module Wrappers {

  /** `null` in the source is `None`; a present value is `Some`. */
  datatype Option<+T> = None | Some(value: T)
}
