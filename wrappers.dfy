/** The optional value used where the page code gets back "an element or null". */
module Wrappers {

  datatype Option<T> = None | Some(value: T)
}
