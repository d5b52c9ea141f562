/** The optional-value datatype the other modules use for "no result". */
module Outcomes {

  datatype Option<+T> = None | Some(value: T)

}
