/** The optional value returned where the recommender answers "no such item". */
module Wrappers {

  datatype Option<+T> = None | Some(value: T)
}
